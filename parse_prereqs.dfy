/** The constraint extractor: `clean_subj_list` and `parse_prereq_info` of
    scrape/parse.py.

    A scraped subject is a dictionary whose sections `prereqs`, `coreqs`
    and `antireqs` are lists of fragments: text lines, and lists of subject
    codes taken from tables.  The extractor walks the three sections in
    that order, carrying a pending `(qty, conc)` pair, and emits one tuple
    per rule it recognises. */
module ParsePrereqs {

  import opened Wrappers
  import opened Text
  import opened Seqs
  import opened ParseMatch

  // ---------------------------------------------------------------------
  // RE_SBJ = [a-zA-Z]{4}\d{5}

  /** A character of `[a-zA-Z]`.  Under `re.IGNORECASE` Python also lets
      this class match the four non-ASCII letters whose case folding lands
      on an ASCII letter: U+0130, U+0131, U+017F and U+212A. */
  predicate CodeLetter(c: char, ignoreCase: bool) {
    IsAsciiLetter(c) || (ignoreCase && (c == 'İ' || c == 'ı' || c == 'ſ' || c == 'K'))
  }

  /** RE_SBJ matches at `p`: four letters, then five digits. */
  predicate CodeAt(s: string, p: int, ignoreCase: bool) {
    && 0 <= p && p + 9 <= |s|
    && (forall t :: p <= t < p + 4 ==> CodeLetter(s[t], ignoreCase))
    && (forall t :: p + 4 <= t < p + 9 ==> IsDigit(s[t]))
  }

  /** `c` is, in full, a subject code. */
  predicate IsCode(c: string, ignoreCase: bool) {
    |c| == 9 && CodeAt(c, 0, ignoreCase)
  }

  lemma CodeSlice(s: string, p: int, ignoreCase: bool)
    requires CodeAt(s, p, ignoreCase)
    ensures IsCode(s[p..p + 9], ignoreCase)
  {
    var c := s[p..p + 9];
    assert forall t :: 0 <= t < 9 ==> c[t] == s[p + t];
  }

  /** The leftmost match of RE_SBJ at or after `p`. */
  function FirstCodeFrom(s: string, p: nat): (r: Option<nat>)
    requires p <= |s|
    ensures r.Some? ==> p <= r.value && CodeAt(s, r.value, false)
    ensures r.Some? ==> forall q :: p <= q < r.value ==> !CodeAt(s, q, false)
    ensures r.None? ==> forall q :: p <= q ==> !CodeAt(s, q, false)
    decreases |s| - p
  {
    if CodeAt(s, p, false) then Some(p)
    else if p == |s| then None
    else FirstCodeFrom(s, p + 1)
  }

  /** `re.search(RE_SBJ, s)`, case-sensitive: the first code in `s`. */
  function FirstCode(s: string): (r: Option<string>)
    ensures r.None? <==> forall p :: !CodeAt(s, p, false)
    ensures r.Some? ==> IsCode(r.value, false) && exists p ::
      && CodeAt(s, p, false) && (forall q :: 0 <= q < p ==> !CodeAt(s, q, false))
      && r.value == s[p..p + 9]
  {
    match FirstCodeFrom(s, 0)
    case None => None
    case Some(p) =>
      CodeSlice(s, p, false);
      Some(s[p..p + 9])
  }

  /** A string that is a code is its own first code. */
  lemma FirstCodeOfCode(c: string)
    requires IsCode(c, false)
    ensures FirstCode(c) == Some(c)
  {
    assert c[0..9] == c;
  }

  /** `re.findall(RE_SBJ, s[p:], flags=re.IGNORECASE)`: matches do not
      overlap, so the scan resumes after each code it takes. */
  function FindCodesFrom(s: string, p: nat): (r: seq<string>)
    requires p <= |s|
    ensures forall i :: 0 <= i < |r| ==> IsCode(r[i], true)
    decreases |s| - p
  {
    if p + 9 > |s| then []
    else if CodeAt(s, p, true) then
      CodeSlice(s, p, true);
      [s[p..p + 9]] + FindCodesFrom(s, p + 9)
    else FindCodesFrom(s, p + 1)
  }

  function FindCodes(s: string): (r: seq<string>)
    ensures forall i :: 0 <= i < |r| ==> IsCode(r[i], true)
  {
    FindCodesFrom(s, 0)
  }

  /** `re.findall` returns every non-overlapping match in order of
      appearance: nothing when no code starts at or after `p`; otherwise
      the leftmost such code, followed by the codes found after its end. */
  lemma {:induction false} FindCodesNext(s: string, p: nat)
    requires p <= |s|
    ensures FindCodesFrom(s, p) == [] <==> forall q :: p <= q ==> !CodeAt(s, q, true)
    ensures forall q :: p <= q && CodeAt(s, q, true) && (forall q' :: p <= q' < q ==> !CodeAt(s, q', true)) ==>
      FindCodesFrom(s, p) == [s[q..q + 9]] + FindCodesFrom(s, q + 9)
    decreases |s| - p
  {
    if p + 9 > |s| {
    } else if CodeAt(s, p, true) {
    } else {
      FindCodesNext(s, p + 1);
    }
  }

  /** The scan of `a + b` from inside `b` sees only `b`. */
  lemma {:induction false} FindCodesShift(a: string, b: string, q: nat)
    requires q <= |b|
    ensures FindCodesFrom(a + b, |a| + q) == FindCodesFrom(b, q)
    decreases |b| - q
  {
    assert (a + b)[|a| + q..] == b[q..];
    FindCodesSuffix(a + b, |a| + q, b, q);
  }

  /** The scan depends only on the text from where it starts. */
  lemma {:induction false} FindCodesSuffix(s: string, p: nat, t: string, q: nat)
    requires p <= |s| && q <= |t| && s[p..] == t[q..]
    ensures FindCodesFrom(s, p) == FindCodesFrom(t, q)
    decreases |s| - p
  {
    assert |s| - p == |t| - q;
    if p + 9 <= |s| {
      assert s[p..p + 9] == s[p..][..9] == t[q..][..9] == t[q..q + 9];
      CodeAtSlice(s, p, true);
      CodeAtSlice(t, q, true);
      if CodeAt(s, p, true) {
        assert s[p + 9..] == s[p..][9..];
        assert t[q + 9..] == t[q..][9..];
        FindCodesSuffix(s, p + 9, t, q + 9);
      } else {
        assert s[p + 1..] == s[p..][1..];
        assert t[q + 1..] == t[q..][1..];
        FindCodesSuffix(s, p + 1, t, q + 1);
      }
    }
  }

  /** Whether a code starts at `p` depends on the nine characters there. */
  lemma CodeAtSlice(s: string, p: int, ignoreCase: bool)
    requires 0 <= p && p + 9 <= |s|
    ensures CodeAt(s, p, ignoreCase) <==> IsCode(s[p..p + 9], ignoreCase)
  {
    var c := s[p..p + 9];
    forall t | p <= t < p + 9 ensures s[t] == c[t - p] { }
  }

  /** Positions holding a non-letter start no code. */
  lemma {:induction false} FindCodesSkip(s: string, p: nat, e: nat)
    requires p <= e <= |s|
    requires forall t :: p <= t < e ==> !CodeLetter(s[t], true)
    ensures FindCodesFrom(s, p) == FindCodesFrom(s, e)
    decreases e - p
  {
    if p < e {
      FindCodesSkip(s, p + 1, e);
      if p + 9 <= |s| {
        assert !CodeLetter(s[p], true);
      } else {
        assert e + 9 > |s|;
      }
    }
  }

  /** Codes written one after another, with separators free of letters
      (", ", " or ", or nothing), are all found, in the order written. */
  lemma {:induction false} FindCodesJoin(codes: seq<string>, sep: string)
    requires forall i :: 0 <= i < |codes| ==> IsCode(codes[i], true)
    requires forall t :: 0 <= t < |sep| ==> !CodeLetter(sep[t], true)
    ensures FindCodes(Join(codes, sep)) == codes
  {
    if |codes| == 1 {
      var c := codes[0];
      assert c[0..9] == c;
    } else if |codes| > 1 {
      var c := codes[0];
      var rest := Join(codes[1..], sep);
      var s := c + sep + rest;
      assert Join(codes, sep) == s;
      assert CodeAt(s, 0, true) by {
        assert forall t :: 0 <= t < 9 ==> s[t] == c[t];
      }
      assert s[0..9] == c;
      assert FindCodesFrom(s, 0) == [c] + FindCodesFrom(s, 9);
      FindCodesSkip(s, 9, 9 + |sep|);
      FindCodesShift(c + sep, rest, 0);
      FindCodesJoin(codes[1..], sep);
    }
  }

  /** `if code in subjects: subjects.remove(code)`: exactly one occurrence
      of the subject's own code goes, the rest keep their order. */
  function RemoveOwn(subjects: seq<string>, code: string): (r: seq<string>)
    ensures multiset(r) == multiset(subjects) - multiset{code}
    ensures code in subjects ==> |r| == |subjects| - 1
    ensures code !in subjects ==> r == subjects
  {
    if code in subjects then RemoveFirst(subjects, code) else subjects
  }

  /** What is left after the removal is the list with the element at the
      first position of the own code deleted. */
  lemma RemoveOwnOrder(subjects: seq<string>, code: string)
    requires code in subjects
    ensures exists i ::
      && 0 <= i < |subjects| && subjects[i] == code && code !in subjects[..i]
      && RemoveOwn(subjects, code) == subjects[..i] + subjects[i + 1..]
  {
    var i := RemoveFirstAt(subjects, code);
  }

  /** A code named twice in a line survives the removal once. */
  lemma RemoveOwnOnce(subjects: seq<string>, code: string)
    requires multiset(subjects)[code] >= 2
    ensures code in RemoveOwn(subjects, code)
  {
    assert multiset(RemoveOwn(subjects, code))[code] >= 1;
  }

  // ---------------------------------------------------------------------
  // clean_subj_list

  /** The entries of length exactly 7, in order. */
  function Keep7(s: seq<string>): (r: seq<string>)
    ensures forall i :: 0 <= i < |r| ==> |r[i]| == 7
  {
    if s == [] then []
    else (if |s[0]| == 7 then [s[0]] else []) + Keep7(s[1..])
  }

  /** The other entries, in order: the list `removals`. */
  function Non7(s: seq<string>): (r: seq<string>)
    ensures forall i :: 0 <= i < |r| ==> |r[i]| != 7
    ensures |Keep7(s)| + |r| == |s|
  {
    if s == [] then []
    else (if |s[0]| != 7 then [s[0]] else []) + Non7(s[1..])
  }

  /** `re.search(RE_SBJ, s)` of every entry: the list `replacements`. */
  function FirstCodes(s: seq<string>): (r: seq<Option<string>>)
    ensures |r| == |s|
    ensures forall i :: 0 <= i < |s| ==> r[i] == FirstCode(s[i])
  {
    if s == [] then [] else [FirstCode(s[0])] + FirstCodes(s[1..])
  }

  /** The list after `clean_subj_list`: the 7-character entries in place,
      then the first code of each other entry that has one. */
  function CleanedList(s: seq<string>): seq<string> {
    Keep7(s) + Somes(FirstCodes(Non7(s)))
  }

  /** `s` with its first `k` entries of a length other than 7 deleted. */
  function DropNon7(s: seq<string>, k: nat): seq<string> {
    if k == 0 || s == [] then s
    else if |s[0]| != 7 then DropNon7(s[1..], k - 1)
    else [s[0]] + DropNon7(s[1..], k)
  }

  lemma {:induction false} Non7Append(a: seq<string>, b: seq<string>)
    ensures Non7(a + b) == Non7(a) + Non7(b)
  {
    if a != [] {
      assert (a + b)[0] == a[0] && (a + b)[1..] == a[1..] + b;
      Non7Append(a[1..], b);
      assert Non7(a) == (if |a[0]| != 7 then [a[0]] else []) + Non7(a[1..]);
    } else {
      assert a + b == b;
    }
  }

  lemma {:induction false} FirstCodesAppend(a: seq<string>, b: seq<string>)
    ensures FirstCodes(a + b) == FirstCodes(a) + FirstCodes(b)
  {
    if a != [] {
      assert (a + b)[1..] == a[1..] + b;
      FirstCodesAppend(a[1..], b);
    }
  }

  lemma SomesStep<T>(xs: seq<Option<T>>, k: nat)
    requires k < |xs|
    ensures Somes(xs[..k + 1]) == Somes(xs[..k]) + (if xs[k].Some? then [xs[k].value] else [])
  {
    assert xs[..k + 1][..k] == xs[..k];
  }

  /** `item.remove(rem)` for the `k`-th removal deletes exactly that entry:
      no entry before it has the same value, since equal values are also
      removals and come earlier. */
  lemma {:induction false} DropStep(s: seq<string>, k: nat, tail: seq<string>)
    requires k < |Non7(s)|
    ensures Non7(s)[k] in DropNon7(s, k) + tail
    ensures RemoveFirst(DropNon7(s, k) + tail, Non7(s)[k]) == DropNon7(s, k + 1) + tail
  {
    if |s[0]| != 7 {
      Non7Head(s);
      if k == 0 {
        DropFirst(s, tail);
      } else {
        DropStep(s[1..], k - 1, tail);
      }
    } else {
      Seven(s, k);
      DropStep(s[1..], k, tail);
      DropKeep(s, k, tail);
    }
  }

  /** `DropStep` past a 7-character head, which the removal skips. */
  lemma DropKeep(s: seq<string>, k: nat, tail: seq<string>)
    requires s != [] && |s[0]| == 7 && k < |Non7(s[1..])| && Non7(s) == Non7(s[1..])
    requires Non7(s)[k] in DropNon7(s[1..], k) + tail
    requires RemoveFirst(DropNon7(s[1..], k) + tail, Non7(s)[k]) == DropNon7(s[1..], k + 1) + tail
    ensures Non7(s)[k] in DropNon7(s, k) + tail
    ensures RemoveFirst(DropNon7(s, k) + tail, Non7(s)[k]) == DropNon7(s, k + 1) + tail
  {
    Seven(s, k);
    var x := Non7(s)[k];
    assert |x| != 7;
    var r := DropNon7(s[1..], k) + tail;
    assert DropNon7(s, k) + tail == [s[0]] + r;
    assert DropNon7(s, k + 1) + tail == [s[0]] + (DropNon7(s[1..], k + 1) + tail);
    RemoveFirstCons(s[0], r, x);
  }

  lemma Non7Head(s: seq<string>)
    requires s != [] && |s[0]| != 7
    ensures Non7(s) == [s[0]] + Non7(s[1..])
  {
  }

  lemma DropFirst(s: seq<string>, tail: seq<string>)
    requires s != [] && |s[0]| != 7
    ensures RemoveFirst(s + tail, s[0]) == DropNon7(s, 1) + tail
  {
    assert s + tail == [s[0]] + (s[1..] + tail);
    RemoveFirstHead(s[0], s[1..] + tail);
  }

  lemma Seven(s: seq<string>, k: nat)
    requires s != [] && |s[0]| == 7
    ensures Non7(s) == Non7(s[1..])
    ensures DropNon7(s, k) == [s[0]] + DropNon7(s[1..], k)
    ensures DropNon7(s, k + 1) == [s[0]] + DropNon7(s[1..], k + 1)
  {
  }

  lemma {:induction false} DropAll(s: seq<string>)
    ensures DropNon7(s, |Non7(s)|) == Keep7(s)
  {
    if s != [] {
      DropAll(s[1..]);
    }
  }

  /** `clean_subj_list(item)`, returning the list it leaves behind. */
  method CleanSubjList(item: seq<string>) returns (cleaned: seq<string>)
    ensures cleaned == CleanedList(item)
  {
    var removals: seq<string> := [];
    var replacements: seq<Option<string>> := [];
    for i := 0 to |item|
      invariant removals == Non7(item[..i])
      invariant replacements == FirstCodes(removals)
    {
      var s := item[i];
      CollectStep(item, i);
      if |s| != 7 {
        removals := removals + [s];
        replacements := replacements + [FirstCode(s)];
      }
    }
    assert item[..|item|] == item;
    cleaned := item;
    for k := 0 to |removals|
      invariant cleaned == DropNon7(item, k) + Somes(replacements[..k])
    {
      ReplaceStep(item, replacements, k);
      cleaned := RemoveFirst(cleaned, removals[k]);
      if replacements[k].Some? {
        cleaned := cleaned + [replacements[k].value];
      }
    }
    DropAll(item);
    assert replacements[..|removals|] == replacements;
  }

  /** One pass of the first loop of `clean_subj_list`. */
  lemma CollectStep(item: seq<string>, i: nat)
    requires i < |item|
    ensures Non7(item[..i + 1]) == Non7(item[..i]) + (if |item[i]| != 7 then [item[i]] else [])
    ensures FirstCodes(Non7(item[..i]) + [item[i]]) == FirstCodes(Non7(item[..i])) + [FirstCode(item[i])]
  {
    assert item[..i + 1] == item[..i] + [item[i]];
    Non7Append(item[..i], [item[i]]);
    FirstCodesAppend(Non7(item[..i]), [item[i]]);
  }

  /** One pass of the second loop of `clean_subj_list`. */
  lemma ReplaceStep(item: seq<string>, reps: seq<Option<string>>, k: nat)
    requires k < |Non7(item)| && k < |reps|
    ensures Non7(item)[k] in DropNon7(item, k) + Somes(reps[..k])
    ensures RemoveFirst(DropNon7(item, k) + Somes(reps[..k]), Non7(item)[k])
      + (if reps[k].Some? then [reps[k].value] else [])
      == DropNon7(item, k + 1) + Somes(reps[..k + 1])
  {
    var tail := Somes(reps[..k]);
    var extra := if reps[k].Some? then [reps[k].value] else [];
    DropStep(item, k, tail);
    SomesStep(reps, k);
    var rest := DropNon7(item, k + 1);
    assert (rest + tail) + extra == rest + (tail + extra);
  }

  /** The list never grows, and nothing is added but codes. */
  lemma CleanedListShape(s: seq<string>)
    ensures |CleanedList(s)| <= |s|
    ensures forall i :: 0 <= i < |CleanedList(s)| ==> |CleanedList(s)[i]| == 7 || IsCode(CleanedList(s)[i], false)
  {
    var reps := Somes(FirstCodes(Non7(s)));
    assert forall i :: 0 <= i < |reps| ==> IsCode(reps[i], false) by {
      SomesCodes(FirstCodes(Non7(s)));
    }
  }

  lemma {:induction false} SomesCodes(xs: seq<Option<string>>)
    requires forall i :: 0 <= i < |xs| ==> xs[i].Some? ==> IsCode(xs[i].value, false)
    ensures forall i :: 0 <= i < |Somes(xs)| ==> IsCode(Somes(xs)[i], false)
  {
    if xs != [] {
      SomesCodes(xs[..|xs| - 1]);
    }
  }

  lemma {:induction false} SomesAll<T>(xs: seq<Option<T>>)
    requires forall i :: 0 <= i < |xs| ==> xs[i].Some?
    ensures |Somes(xs)| == |xs|
    ensures forall i :: 0 <= i < |xs| ==> Somes(xs)[i] == xs[i].value
  {
    if xs != [] {
      SomesAll(xs[..|xs| - 1]);
    }
  }

  /** A list made only of well-formed codes comes back unchanged: each code
      is removed and appended again, which rotates the list once round. */
  lemma {:induction false} CleanedListOfCodes(s: seq<string>)
    requires forall i :: 0 <= i < |s| ==> IsCode(s[i], false)
    ensures CleanedList(s) == s
  {
    AllNon7(s);
    var fs := FirstCodes(s);
    forall i | 0 <= i < |s| ensures fs[i] == Some(s[i]) {
      FirstCodeOfCode(s[i]);
    }
    SomesAll(fs);
  }

  lemma {:induction false} AllNon7(s: seq<string>)
    requires forall i :: 0 <= i < |s| ==> |s[i]| != 7
    ensures Non7(s) == s && Keep7(s) == []
  {
    if s != [] {
      AllNon7(s[1..]);
    }
  }

  /** Every 7-character entry stays, whatever it holds, and in its order
      among the others; every other entry is gone unless it is the first
      code of some other entry. */
  lemma {:induction false} CleanedKeepsSevens(s: seq<string>, x: string)
    ensures |x| == 7 ==> multiset(CleanedList(s))[x] == multiset(s)[x]
    ensures |x| != 7 && !IsCode(x, false) ==> x !in CleanedList(s)
  {
    var reps := Somes(FirstCodes(Non7(s)));
    SomesCodes(FirstCodes(Non7(s)));
    SevensCount(s, x);
    if |x| != 7 && !IsCode(x, false) {
      assert x !in reps;
      assert x !in Keep7(s);
    }
  }

  lemma {:induction false} SevensCount(s: seq<string>, x: string)
    ensures |x| == 7 ==> multiset(Keep7(s))[x] == multiset(s)[x]
  {
    if s != [] {
      SevensCount(s[1..], x);
      assert s == [s[0]] + s[1..];
    }
  }

  // ---------------------------------------------------------------------
  // parse_prereq_info

  /** One entry of a section: a line of text, or the list of codes a table
      gave. */
  datatype Fragment = Line(text: string) | Codes(codes: seq<string>)

  /** A scraped subject: the value of its key 'code' when there is one, and
      its other keys, the sections, each a list of fragments. */
  datatype Subject = Subject(code: Option<string>, sections: map<string, seq<Fragment>>)

  /** The exceptions that escape the extractor: a missing key, and a list
      among the lines that `'\n'.join` is given. */
  datatype Error = KeyError(key: string) | TypeError

  /** The pending `(qty, conc)` pair. */
  datatype Pending = Pending(qty: int, conc: bool)

  /** The keys of `defaults`, in the order the loop visits them. */
  const SectionNames: seq<string> := ["prereqs", "coreqs", "antireqs"]

  /** `defaults[req]` for the `k`-th section. */
  function Default(k: nat): Pending
    requires k < 3
  {
    if k == 0 then Pending(0, false)
    else if k == 1 then Pending(0, true)
    else Pending(-1, false)
  }

  /** A single-clause matcher: the typed rule a line states, if any. */
  type Matcher = string -> Option<Constraint>

  /** The typed matchers, in the order the loop calls them. */
  const Matchers: seq<Matcher> :=
    [ParseCourseRequirement, ParsePointsRequirement, ParseSubjectRequirement, ParseMajorRequirement]

  /** The matchers exactly as the code builds them: the course prefixes with
      the fused entry and the major lookahead cut to the shortest suffix. */
  const MatchersAsWritten: seq<Matcher> :=
    [ParseCourseRequirementAsWritten, ParsePointsRequirement, ParseSubjectRequirement, ParseMajorRequirementAsWritten]

  /** What the matchers `ms` make of line `t`, in order. */
  function Results(ms: seq<Matcher>, t: string): (r: seq<Option<Constraint>>)
    ensures |r| == |ms|
    ensures forall j :: 0 <= j < |ms| ==> r[j] == ms[j](t)
  {
    if ms == [] then [] else Results(ms[..|ms| - 1], t) + [ms[|ms| - 1](t)]
  }

  /** The codes a line names, less one occurrence of the subject's own. */
  function LineSubjects(t: string, code: string): seq<string> {
    RemoveOwn(FindCodes(t), code)
  }

  predicate OneOfCue(t: string) {
    Contains(LowerStr(t), "one of")
  }

  predicate ConcurrentCue(t: string) {
    Contains(LowerStr(t), "may be taken concurrently")
  }

  /** The cue phrases of line `t` applied to the pending pair `q`. */
  function Cue(q: Pending, t: string): Pending {
    Pending(if OneOfCue(t) then 1 else q.qty, if ConcurrentCue(t) then true else q.conc)
  }

  /** What a text line appends, given the pending pair before it. */
  function LineOutput(ms: seq<Matcher>, p: Pending, t: string, code: string): seq<Constraint> {
    var subjects := LineSubjects(t, code);
    (if subjects != [] then [Subjects(p.qty, subjects, p.conc)] else []) + Somes(Results(ms, t))
  }

  /** One fragment of a section whose default is `dflt`: the pending pair
      after it and what it appends.  Only a text line reads the key
      'code'. */
  function Step(ms: seq<Matcher>, p: Pending, dflt: Pending, code: Option<string>, f: Fragment): Result<(Pending, seq<Constraint>), Error> {
    match f
    case Codes(cs) => Ok((dflt, [Subjects(p.qty, CleanedList(cs), p.conc)]))
    case Line(t) =>
      if code.None? then Err(KeyError("code"))
      else
        var q := if LineSubjects(t, code.value) != [] then dflt else p;
        Ok((Cue(q, t), LineOutput(ms, p, t, code.value)))
  }

  /** The items of one section, from its default pending pair. */
  function SectionRun(ms: seq<Matcher>, dflt: Pending, code: Option<string>, items: seq<Fragment>): Result<(Pending, seq<Constraint>), Error>
    decreases |items|
  {
    if items == [] then Ok((dflt, []))
    else Extend(ms, dflt, code, SectionRun(ms, dflt, code, items[..|items| - 1]), items[|items| - 1])
  }

  /** The run so far, followed by fragment `f`.  An exception ends it. */
  function Extend(ms: seq<Matcher>, dflt: Pending, code: Option<string>, sofar: Result<(Pending, seq<Constraint>), Error>, f: Fragment): Result<(Pending, seq<Constraint>), Error> {
    match sofar
    case Err(e) => Err(e)
    case Ok((p, out)) =>
      match Step(ms, p, dflt, code, f)
      case Err(e) => Err(e)
      case Ok((p', more)) => Ok((p', out + more))
  }

  /** The first `k` sections, each from its own default. */
  function Sections(ms: seq<Matcher>, subj: Subject, k: nat): Result<seq<Constraint>, Error>
    requires k <= 3
  {
    if k == 0 then Ok([])
    else
      match Sections(ms, subj, k - 1)
      case Err(e) => Err(e)
      case Ok(out) =>
        var req := SectionNames[k - 1];
        if req !in subj.sections then Err(KeyError(req))
        else
          match SectionRun(ms, Default(k - 1), subj.code, subj.sections[req])
          case Err(e) => Err(e)
          case Ok((_, more)) => Ok(out + more)
  }

  /** The texts of the lines, in order. */
  function Texts(frags: seq<Fragment>): (r: seq<string>)
    ensures |r| <= |frags|
  {
    if frags == [] then []
    else (if frags[0].Line? then [frags[0].text] else []) + Texts(frags[1..])
  }

  /** `'\n'.join(frags)`: a list among them raises TypeError. */
  function JoinLines(frags: seq<Fragment>): Result<string, Error> {
    if forall i :: 0 <= i < |frags| ==> frags[i].Line? then Ok(Join(Texts(frags), "\n"))
    else Err(TypeError)
  }

  /** `parse_prereq_info(subj)` with the matchers `ms`. */
  function PrereqInfoWith(ms: seq<Matcher>, subj: Subject): Result<seq<Constraint>, Error> {
    match Sections(ms, subj, 3)
    case Err(e) => Err(e)
    case Ok(out) =>
      if "addreqs" !in subj.sections then Ok(out)
      else
        match JoinLines(subj.sections["addreqs"])
        case Err(e) => Err(e)
        case Ok(text) => Ok(out + [Additional(text)])
  }

  /** `parse_prereq_info(subj)`: the loop over the sections, with the
      code's own matchers (course with the fused prefix, points, field,
      major with the trimmed lookahead), then the additional requirements.
      `PrereqInfoWith(Matchers, subj)` is the same loop with the corrected
      course and major matchers. */
  method ParsePrereqInfo(subj: Subject) returns (r: Result<seq<Constraint>, Error>)
    ensures r == PrereqInfoWith(MatchersAsWritten, subj)
  {
    r := ParsePrereqInfoWith(MatchersAsWritten, subj);
  }

  /** The loop of `parse_prereq_info` with the matchers `ms`. */
  method ParsePrereqInfoWith(ms: seq<Matcher>, subj: Subject) returns (r: Result<seq<Constraint>, Error>)
    ensures r == PrereqInfoWith(ms, subj)
  {
    var constraints: seq<Constraint> := [];
    for k := 0 to 3
      invariant Sections(ms, subj, k) == Ok(constraints)
    {
      var req := SectionNames[k];
      if req !in subj.sections {
        SectionsFail(ms, subj, k + 1);
        return Err(KeyError(req));
      }
      var items := subj.sections[req];
      var section := ParseSection(ms, Default(k), subj.code, items);
      assert items[..|items|] == items;
      match section {
        case Err(e) =>
          SectionsFail(ms, subj, k + 1);
          return Err(e);
        case Ok((_, emitted)) =>
          SectionStep(ms, subj, k, section.value.0, emitted);
          constraints := constraints + emitted;
      }
    }
    if "addreqs" in subj.sections {
      match JoinLines(subj.sections["addreqs"]) {
        case Err(e) =>
          return Err(e);
        case Ok(text) =>
          constraints := constraints + [Additional(text)];
      }
    }
    r := Ok(constraints);
  }

  /** `for item in subj[req]: ...`: the fragments of one section, from
      its default pending pair; what they add to `constraints` is returned.
      `clean_subj_list` also rewrites the list inside `subj`; here the
      cleaned list is the one the constraint holds. */
  method ParseSection(ms: seq<Matcher>, dflt: Pending, code: Option<string>, items: seq<Fragment>)
    returns (r: Result<(Pending, seq<Constraint>), Error>)
    ensures r == SectionRun(ms, dflt, code, items)
  {
    var qty, conc := dflt.qty, dflt.conc;
    var emitted: seq<Constraint> := [];
    for i := 0 to |items|
      invariant SectionRun(ms, dflt, code, items[..i]) == Ok((Pending(qty, conc), emitted))
    {
      RunStep(ms, dflt, code, items, i);
      match items[i] {
        case Codes(cs) =>
          var cleaned := CleanSubjList(cs);
          emitted := emitted + [Subjects(qty, cleaned, conc)];
          qty, conc := dflt.qty, dflt.conc;
        case Line(t) =>
          if code.None? {
            RunFails(ms, dflt, code, items, i + 1);
            return Err(KeyError("code"));
          }
          var p', out := ParseLine(ms, Pending(qty, conc), dflt, t, code.value);
          emitted := emitted + out;
          qty, conc := p'.qty, p'.conc;
      }
    }
    assert items[..|items|] == items;
    r := Ok((Pending(qty, conc), emitted));
  }

  /** The body of the fragment loop for a text line: the codes it names,
      the matchers in turn, then the cue phrases. */
  method ParseLine(ms: seq<Matcher>, p: Pending, dflt: Pending, t: string, code: string) returns (p': Pending, out: seq<Constraint>)
    ensures Step(ms, p, dflt, Some(code), Line(t)) == Ok((p', out))
  {
    var qty, conc := p.qty, p.conc;
    var subjects := FindCodes(t);
    if code in subjects {
      subjects := RemoveFirst(subjects, code);
    }
    assert subjects == LineSubjects(t, code);
    out := [];
    if subjects != [] {
      out := [Subjects(qty, subjects, conc)];
      qty, conc := dflt.qty, dflt.conc;
    }
    ghost var q := Pending(qty, conc);
    var found := RunMatchers(ms, t);
    out := out + found;
    var lower := LowerStr(t);
    if Contains(lower, "one of") {
      qty := 1;
    }
    if Contains(lower, "may be taken concurrently") {
      conc := true;
    }
    p' := Pending(qty, conc);
    assert p' == Cue(q, t);
    assert out == LineOutput(ms, p, t, code);
    StepLine(ms, p, dflt, t, code);
  }

  lemma StepLine(ms: seq<Matcher>, p: Pending, dflt: Pending, t: string, code: string)
    ensures Step(ms, p, dflt, Some(code), Line(t))
      == Ok((Cue(if LineSubjects(t, code) != [] then dflt else p, t), LineOutput(ms, p, t, code)))
  {
  }

  /** `for func in [...]: c = func(item); if c is not None: ...append(c)` */
  method RunMatchers(ms: seq<Matcher>, t: string) returns (found: seq<Constraint>)
    ensures found == Somes(Results(ms, t))
  {
    found := [];
    for j := 0 to |ms|
      invariant found == Somes(Results(ms, t)[..j])
    {
      var c := ms[j](t);
      SomesStep(Results(ms, t), j);
      if c.Some? {
        found := found + [c.value];
      }
    }
    assert Results(ms, t)[..|ms|] == Results(ms, t);
  }

  /** The run over one more fragment is the run so far and one step. */
  lemma RunStep(ms: seq<Matcher>, dflt: Pending, code: Option<string>, items: seq<Fragment>, i: nat)
    requires i < |items|
    ensures SectionRun(ms, dflt, code, items[..i + 1]) == Extend(ms, dflt, code, SectionRun(ms, dflt, code, items[..i]), items[i])
  {
    assert items[..i + 1][..i] == items[..i];
  }

  /** The sections so far and one whole section more. */
  lemma SectionStep(ms: seq<Matcher>, subj: Subject, k: nat, p: Pending, emitted: seq<Constraint>)
    requires k < 3 && Sections(ms, subj, k).Ok? && SectionNames[k] in subj.sections
    requires var items := subj.sections[SectionNames[k]];
      SectionRun(ms, Default(k), subj.code, items[..|items|]) == Ok((p, emitted))
    ensures Sections(ms, subj, k + 1) == Ok(Sections(ms, subj, k).value + emitted)
  {
    var items := subj.sections[SectionNames[k]];
    assert items[..|items|] == items;
  }

  /** A failure in the first `n` fragments is the section's failure. */
  lemma {:induction false} RunFails(ms: seq<Matcher>, dflt: Pending, code: Option<string>, items: seq<Fragment>, n: nat)
    requires n <= |items| && SectionRun(ms, dflt, code, items[..n]).Err?
    ensures SectionRun(ms, dflt, code, items) == SectionRun(ms, dflt, code, items[..n])
    decreases |items| - n
  {
    if n < |items| {
      assert items[..n + 1][..n] == items[..n];
      RunFails(ms, dflt, code, items, n + 1);
    } else {
      assert items[..n] == items;
    }
  }

  /** A failure in the first `k` sections is the extractor's failure. */
  lemma {:induction false} SectionsFail(ms: seq<Matcher>, subj: Subject, k: nat)
    requires k <= 3 && Sections(ms, subj, k).Err?
    ensures PrereqInfoWith(ms, subj) == Sections(ms, subj, k)
    decreases 3 - k
  {
    if k < 3 {
      SectionsFail(ms, subj, k + 1);
    }
  }

  // ---------------------------------------------------------------------
  // Properties of the extractor

  /** The kinds of rule each of the four matchers can return, in order. */
  ghost predicate TypedMatchers(ms: seq<Matcher>) {
    && |ms| == 4
    && (forall t :: ms[0](t).Some? ==> ms[0](t).value.Course?)
    && (forall t :: ms[1](t).Some? ==> ms[1](t).value.Points?)
    && (forall t :: ms[2](t).Some? ==> ms[2](t).value.Field?)
    && (forall t :: ms[3](t).Some? ==> ms[3](t).value.Major?)
  }

  lemma MatchersTyped()
    ensures TypedMatchers(Matchers)
  {
  }

  /** The properties below hold for the code's own matchers as well. */
  lemma MatchersAsWrittenTyped()
    ensures TypedMatchers(MatchersAsWritten)
  {
  }

  /** The position of a kind of rule in the order a line emits them. */
  function Rank(c: Constraint): nat {
    match c
    case Subjects(_, _, _) => 0
    case Course(_) => 1
    case Points(_, _) => 2
    case Field(_, _, _) => 3
    case Major(_) => 4
    case Additional(_) => 5
  }

  lemma {:induction false} SomesRanked(xs: seq<Option<Constraint>>)
    requires forall j :: 0 <= j < |xs| && xs[j].Some? ==> Rank(xs[j].value) == j + 1
    ensures forall i :: 0 <= i < |Somes(xs)| ==> 1 <= Rank(Somes(xs)[i]) <= |xs|
    ensures forall i, j :: 0 <= i < j < |Somes(xs)| ==> Rank(Somes(xs)[i]) < Rank(Somes(xs)[j])
  {
    if xs != [] {
      var init := xs[..|xs| - 1];
      SomesRanked(init);
    }
  }

  lemma {:induction false} SomesHas<T>(xs: seq<Option<T>>, j: nat)
    requires j < |xs| && xs[j].Some?
    ensures xs[j].value in Somes(xs)
  {
    if j < |xs| - 1 {
      SomesHas(xs[..|xs| - 1], j);
    }
  }

  /** A text line appends at most one SUBJECTS tuple, first, holding the
      pending pair from before the line (its own cue phrases come later),
      then the non-None results of the matchers, each kind at most once and
      in the order course, points, field, major. */
  lemma LineOrdered(ms: seq<Matcher>, p: Pending, t: string, code: string)
    requires TypedMatchers(ms)
    ensures var out := LineOutput(ms, p, t, code);
      && (forall i, j :: 0 <= i < j < |out| ==> Rank(out[i]) < Rank(out[j]))
      && (forall i :: 0 <= i < |out| && out[i].Subjects? ==> i == 0 && out[i] == Subjects(p.qty, LineSubjects(t, code), p.conc))
      && (LineSubjects(t, code) != [] <==> out != [] && out[0].Subjects?)
      && (forall j :: 0 <= j < 4 && ms[j](t).Some? ==> ms[j](t).value in out)
  {
    var xs := Results(ms, t);
    var found := Somes(xs);
    ResultsRanked(ms, t);
    forall j | 0 <= j < 4 && ms[j](t).Some? ensures ms[j](t).value in found {
      SomesHas(xs, j);
    }
    var subjects := LineSubjects(t, code);
    var head := if subjects != [] then [Subjects(p.qty, subjects, p.conc)] else [];
    LineShape(head, found, Subjects(p.qty, subjects, p.conc));
  }

  lemma ResultsRanked(ms: seq<Matcher>, t: string)
    requires TypedMatchers(ms)
    ensures forall i :: 0 <= i < |Somes(Results(ms, t))| ==> 1 <= Rank(Somes(Results(ms, t))[i])
    ensures forall i, j :: 0 <= i < j < |Somes(Results(ms, t))| ==> Rank(Somes(Results(ms, t))[i]) < Rank(Somes(Results(ms, t))[j])
  {
    SomesRanked(Results(ms, t));
  }

  lemma LineShape(head: seq<Constraint>, found: seq<Constraint>, s: Constraint)
    requires head == [] || head == [s]
    requires s.Subjects?
    requires forall i :: 0 <= i < |found| ==> 1 <= Rank(found[i])
    requires forall i, j :: 0 <= i < j < |found| ==> Rank(found[i]) < Rank(found[j])
    ensures var out := head + found;
      && (forall i, j :: 0 <= i < j < |out| ==> Rank(out[i]) < Rank(out[j]))
      && (forall i :: 0 <= i < |out| && out[i].Subjects? ==> i == 0 && out[i] == s)
      && (head != [] <==> out != [] && out[0].Subjects?)
  {
    var out := head + found;
    forall i | |head| <= i < |out| ensures 1 <= Rank(out[i]) {
      assert out[i] == found[i - |head|];
    }
  }

  /** A fragment emits a SUBJECTS tuple: a table always does, a line when
      codes other than the subject's own are left. */
  predicate Emits(code: string, f: Fragment) {
    f.Codes? || LineSubjects(f.text, code) != []
  }

  /** The codes that SUBJECTS tuple holds. */
  function EmittedCodes(code: string, f: Fragment): seq<string> {
    match f
    case Codes(cs) => CleanedList(cs)
    case Line(t) => LineSubjects(t, code)
  }

  /** A fragment that is a line with the cue 'one of'. */
  predicate OneOfLine(f: Fragment) {
    f.Line? && OneOfCue(f.text)
  }

  /** A fragment that is a line with the cue 'may be taken concurrently'. */
  predicate ConcurrentLine(f: Fragment) {
    f.Line? && ConcurrentCue(f.text)
  }

  /** The pending pair after fragment `f`, from `p` before it. */
  function NextPending(p: Pending, dflt: Pending, code: string, f: Fragment): Pending {
    var q := if Emits(code, f) then dflt else p;
    Pending(if OneOfLine(f) then 1 else q.qty, ConcurrentLine(f) || q.conc)
  }

  lemma ExtendPending(ms: seq<Matcher>, dflt: Pending, code: string, sofar: Result<(Pending, seq<Constraint>), Error>, f: Fragment)
    requires sofar.Ok?
    ensures Extend(ms, dflt, Some(code), sofar, f).Ok?
    ensures Extend(ms, dflt, Some(code), sofar, f).value.0 == NextPending(sofar.value.0, dflt, code, f)
  {
  }

  /** Per fragment: whether it emits, and which cues it holds. */
  function EmitFlags(code: string, items: seq<Fragment>): (r: seq<bool>)
    ensures |r| == |items| && forall m :: 0 <= m < |items| ==> r[m] == Emits(code, items[m])
  {
    if items == [] then [] else [Emits(code, items[0])] + EmitFlags(code, items[1..])
  }

  function OneOfFlags(items: seq<Fragment>): (r: seq<bool>)
    ensures |r| == |items| && forall m :: 0 <= m < |items| ==> r[m] == OneOfLine(items[m])
  {
    if items == [] then [] else [OneOfLine(items[0])] + OneOfFlags(items[1..])
  }

  function ConcurrentFlags(items: seq<Fragment>): (r: seq<bool>)
    ensures |r| == |items| && forall m :: 0 <= m < |items| ==> r[m] == ConcurrentLine(items[m])
  {
    if items == [] then [] else [ConcurrentLine(items[0])] + ConcurrentFlags(items[1..])
  }

  /** The last position before `n` whose flag is set, or -1. */
  function LastSet(e: seq<bool>, n: nat): (r: int)
    requires n <= |e|
    ensures -1 <= r < n
    ensures r >= 0 ==> e[r]
    ensures forall m :: r < m < n ==> !e[m]
  {
    if n == 0 then -1 else if e[n - 1] then n - 1 else LastSet(e, n - 1)
  }

  /** The pending pair before position `n`, from flags: the default,
      changed by the cues at or after the last emission. */
  function Window(d: Pending, e: seq<bool>, o: seq<bool>, c: seq<bool>, n: nat): Pending
    requires n <= |e| && n <= |o| && n <= |c|
  {
    var lo := if LastSet(e, n) < 0 then 0 else LastSet(e, n);
    Pending(if exists m :: lo <= m < n && o[m] then 1 else d.qty, d.conc || exists m :: lo <= m < n && c[m])
  }

  /** The empty window is the default. */
  lemma WindowStart(d: Pending, e: seq<bool>, o: seq<bool>, c: seq<bool>)
    ensures Window(d, e, o, c, 0) == d
  {
  }

  /** The window one position further on. */
  lemma WindowStep(d: Pending, e: seq<bool>, o: seq<bool>, c: seq<bool>, n: nat)
    requires 0 < n <= |e| && n <= |o| && n <= |c|
    ensures var q := if e[n - 1] then d else Window(d, e, o, c, n - 1);
      Window(d, e, o, c, n) == Pending(if o[n - 1] then 1 else q.qty, c[n - 1] || q.conc)
  {
    if !e[n - 1] {
      var lo := if LastSet(e, n - 1) < 0 then 0 else LastSet(e, n - 1);
      assert (exists m :: lo <= m < n && o[m]) <==> (exists m :: lo <= m < n - 1 && o[m]) || o[n - 1];
      assert (exists m :: lo <= m < n && c[m]) <==> (exists m :: lo <= m < n - 1 && c[m]) || c[n - 1];
    } else {
      assert (exists m :: n - 1 <= m < n && o[m]) <==> o[n - 1];
      assert (exists m :: n - 1 <= m < n && c[m]) <==> c[n - 1];
    }
  }

  /** The pending pair before fragment `n`, described without the loop: the
      section default, changed by the cue phrases of the lines from the
      last fragment that emitted a SUBJECTS tuple (its own cues apply after
      its emission) up to `n`. */
  function WindowPending(dflt: Pending, code: string, items: seq<Fragment>, n: nat): Pending
    requires n <= |items|
  {
    Window(dflt, EmitFlags(code, items), OneOfFlags(items), ConcurrentFlags(items), n)
  }

  /** The pending pair the loop carries is the window pending pair: it is
      the default at the start of a section and after every SUBJECTS
      tuple, and only cue phrases since then change it. */
  lemma PendingWindow(ms: seq<Matcher>, dflt: Pending, code: string, items: seq<Fragment>, n: nat)
    requires n <= |items|
    ensures SectionRun(ms, dflt, Some(code), items[..n]).Ok?
    ensures SectionRun(ms, dflt, Some(code), items[..n]).value.0 == WindowPending(dflt, code, items, n)
  {
    PendingWindowAt(ms, dflt, code, items, n, SectionRun(ms, dflt, Some(code), items[..n]));
  }

  /** `PendingWindow` on the run given by name. */
  lemma {:induction false} PendingWindowAt(ms: seq<Matcher>, dflt: Pending, code: string, items: seq<Fragment>, n: nat, r: Result<(Pending, seq<Constraint>), Error>)
    requires n <= |items| && r == SectionRun(ms, dflt, Some(code), items[..n])
    ensures r.Ok? && r.value.0 == WindowPending(dflt, code, items, n)
  {
    if n > 0 {
      var r0 := SectionRun(ms, dflt, Some(code), items[..n - 1]);
      RunStep(ms, dflt, Some(code), items, n - 1);
      PendingWindowAt(ms, dflt, code, items, n - 1, r0);
      ExtendPending(ms, dflt, code, r0, items[n - 1]);
      PendingStep(dflt, code, items, n, r0.value.0, r.value.0);
    } else {
      PendingStart(ms, dflt, code, items, r);
    }
  }

  /** Before any fragment, the loop's pending pair and the window's are
      the default. */
  lemma PendingStart(ms: seq<Matcher>, dflt: Pending, code: string, items: seq<Fragment>, r: Result<(Pending, seq<Constraint>), Error>)
    requires r == SectionRun(ms, dflt, Some(code), items[..0])
    ensures r.Ok? && r.value.0 == WindowPending(dflt, code, items, 0)
  {
    assert items[..0] == [];
    WindowStart(dflt, EmitFlags(code, items), OneOfFlags(items), ConcurrentFlags(items));
  }

  /** One fragment more moves the window pending pair as the loop moves
      its pending pair. */
  lemma PendingStep(dflt: Pending, code: string, items: seq<Fragment>, n: nat, prev: Pending, next: Pending)
    requires 0 < n <= |items| && prev == WindowPending(dflt, code, items, n - 1)
    requires next == NextPending(prev, dflt, code, items[n - 1])
    ensures next == WindowPending(dflt, code, items, n)
  {
    WindowStep(dflt, EmitFlags(code, items), OneOfFlags(items), ConcurrentFlags(items), n);
  }

  /** The SUBJECTS tuple fragment `i` emits carries the window pending pair
      before `i`, so a cue phrase affects only later fragments and never a
      later section. */
  lemma FragmentSubjects(ms: seq<Matcher>, dflt: Pending, code: string, items: seq<Fragment>, i: nat)
    requires TypedMatchers(ms)
    requires i < |items| && SectionRun(ms, dflt, Some(code), items[..i + 1]).Ok? && Emits(code, items[i])
    ensures SectionRun(ms, dflt, Some(code), items[..i]).Ok?
    ensures var before := SectionRun(ms, dflt, Some(code), items[..i]).value.1;
      var after := SectionRun(ms, dflt, Some(code), items[..i + 1]).value.1;
      var w := WindowPending(dflt, code, items, i);
      |before| < |after| && after[..|before|] == before
      && after[|before|] == Subjects(w.qty, EmittedCodes(code, items[i]), w.conc)
  {
    RunStep(ms, dflt, Some(code), items, i);
    PendingWindow(ms, dflt, code, items, i);
    var p := SectionRun(ms, dflt, Some(code), items[..i]).value.0;
    match items[i]
    case Codes(cs) =>
    case Line(t) =>
      LineOrdered(ms, p, t, code);
  }

  /** Every pending pair and every SUBJECTS tuple of a section holds the
      section default or a cue's value: in prereqs and coreqs the quantity
      is 0 or 1, in antireqs -1 or 1, and every coreqs tuple is
      concurrent. */
  lemma {:induction false} SectionSubjectsRange(ms: seq<Matcher>, dflt: Pending, code: string, items: seq<Fragment>)
    requires TypedMatchers(ms) && SectionRun(ms, dflt, Some(code), items).Ok?
    ensures var (p, out) := SectionRun(ms, dflt, Some(code), items).value;
      && (p.qty == dflt.qty || p.qty == 1) && (dflt.conc ==> p.conc)
      && forall i :: 0 <= i < |out| && out[i].Subjects? ==>
        (out[i].qty == dflt.qty || out[i].qty == 1) && (dflt.conc ==> out[i].concurrent)
    decreases |items|
  {
    if items != [] {
      var init := items[..|items| - 1];
      SectionSubjectsRange(ms, dflt, code, init);
      var (p, out) := SectionRun(ms, dflt, Some(code), init).value;
      match items[|items| - 1]
      case Codes(cs) =>
      case Line(t) =>
        LineOrdered(ms, p, t, code);
    }
  }

  /** No constraint of `out` is an ADDITIONAL tuple. */
  predicate NoAdditional(out: seq<Constraint>) {
    forall i :: 0 <= i < |out| ==> !out[i].Additional?
  }

  lemma {:induction false} SomesNoAdditional(xs: seq<Option<Constraint>>)
    requires forall j :: 0 <= j < |xs| && xs[j].Some? ==> !xs[j].value.Additional?
    ensures NoAdditional(Somes(xs))
  {
    if xs != [] {
      SomesNoAdditional(xs[..|xs| - 1]);
    }
  }

  /** A text line appends no ADDITIONAL tuple. */
  lemma LineNoAdditional(ms: seq<Matcher>, p: Pending, t: string, code: string)
    requires TypedMatchers(ms)
    ensures NoAdditional(LineOutput(ms, p, t, code))
  {
    ResultsNotAdditional(ms, t);
    SomesNoAdditional(Results(ms, t));
    var subjects := LineSubjects(t, code);
    var head := if subjects != [] then [Subjects(p.qty, subjects, p.conc)] else [];
    NoAdditionalAppend(head, Somes(Results(ms, t)));
  }

  lemma ResultsNotAdditional(ms: seq<Matcher>, t: string)
    requires TypedMatchers(ms)
    ensures forall j :: 0 <= j < |Results(ms, t)| && Results(ms, t)[j].Some? ==> !Results(ms, t)[j].value.Additional?
  {
  }

  lemma NoAdditionalAppend(a: seq<Constraint>, b: seq<Constraint>)
    requires NoAdditional(a) && NoAdditional(b)
    ensures NoAdditional(a + b)
  {
  }

  /** No fragment appends an ADDITIONAL tuple. */
  lemma StepNoAdditional(ms: seq<Matcher>, p: Pending, dflt: Pending, code: Option<string>, f: Fragment)
    requires TypedMatchers(ms) && Step(ms, p, dflt, code, f).Ok?
    ensures NoAdditional(Step(ms, p, dflt, code, f).value.1)
  {
    if f.Line? {
      StepLine(ms, p, dflt, f.text, code.value);
      LineNoAdditional(ms, p, f.text, code.value);
    }
  }

  lemma ExtendNoAdditional(ms: seq<Matcher>, dflt: Pending, code: Option<string>, sofar: Result<(Pending, seq<Constraint>), Error>, f: Fragment)
    requires TypedMatchers(ms) && sofar.Ok? && Extend(ms, dflt, code, sofar, f).Ok?
    requires NoAdditional(sofar.value.1)
    ensures NoAdditional(Extend(ms, dflt, code, sofar, f).value.1)
  {
    var (p, out) := sofar.value;
    StepNoAdditional(ms, p, dflt, code, f);
    var more := Step(ms, p, dflt, code, f).value.1;
    assert Extend(ms, dflt, code, sofar, f).value.1 == out + more;
  }

  /** Nothing a section appends is an ADDITIONAL tuple. */
  lemma {:induction false} SectionNoAdditional(ms: seq<Matcher>, dflt: Pending, code: Option<string>, items: seq<Fragment>)
    requires TypedMatchers(ms) && SectionRun(ms, dflt, code, items).Ok?
    ensures NoAdditional(SectionRun(ms, dflt, code, items).value.1)
    decreases |items|
  {
    if items != [] {
      var init := items[..|items| - 1];
      var sofar := SectionRun(ms, dflt, code, init);
      assert sofar.Ok?;
      SectionNoAdditional(ms, dflt, code, init);
      ExtendNoAdditional(ms, dflt, code, sofar, items[|items| - 1]);
    }
  }

  /** The first `k` sections are the first `k - 1` and the `k`-th, run
      from its own default. */
  lemma SectionsUnfold(ms: seq<Matcher>, subj: Subject, k: nat)
    requires 0 < k <= 3 && Sections(ms, subj, k).Ok?
    ensures Sections(ms, subj, k - 1).Ok? && SectionNames[k - 1] in subj.sections
    ensures SectionRun(ms, Default(k - 1), subj.code, subj.sections[SectionNames[k - 1]]).Ok?
    ensures Sections(ms, subj, k).value
      == Sections(ms, subj, k - 1).value + SectionRun(ms, Default(k - 1), subj.code, subj.sections[SectionNames[k - 1]]).value.1
  {
  }

  /** The three sections run each from its own default (no pending pair
      passes from one to the next), and what they append follows one
      another in the order prereqs, coreqs, antireqs. */
  lemma PrereqInfoSections(ms: seq<Matcher>, subj: Subject)
    requires Sections(ms, subj, 3).Ok?
    ensures "prereqs" in subj.sections && "coreqs" in subj.sections && "antireqs" in subj.sections
    ensures SectionRun(ms, Default(0), subj.code, subj.sections["prereqs"]).Ok?
    ensures SectionRun(ms, Default(1), subj.code, subj.sections["coreqs"]).Ok?
    ensures SectionRun(ms, Default(2), subj.code, subj.sections["antireqs"]).Ok?
    ensures Sections(ms, subj, 3).value
      == SectionRun(ms, Default(0), subj.code, subj.sections["prereqs"]).value.1
      + SectionRun(ms, Default(1), subj.code, subj.sections["coreqs"]).value.1
      + SectionRun(ms, Default(2), subj.code, subj.sections["antireqs"]).value.1
  {
    assert SectionNames[0] == "prereqs" && SectionNames[1] == "coreqs" && SectionNames[2] == "antireqs";
    SectionsUnfold(ms, subj, 3);
    SectionsUnfold(ms, subj, 2);
    SectionsUnfold(ms, subj, 1);
    var a := SectionRun(ms, Default(0), subj.code, subj.sections["prereqs"]).value.1;
    var b := SectionRun(ms, Default(1), subj.code, subj.sections["coreqs"]).value.1;
    var c := SectionRun(ms, Default(2), subj.code, subj.sections["antireqs"]).value.1;
    assert Sections(ms, subj, 1).value == a by {
      assert Sections(ms, subj, 0).value == [];
    }
    assert Sections(ms, subj, 2).value == a + b;
  }

  /** None of the three sections appends an ADDITIONAL tuple. */
  lemma SectionsNoAdditional(ms: seq<Matcher>, subj: Subject)
    requires TypedMatchers(ms) && Sections(ms, subj, 3).Ok?
    ensures NoAdditional(Sections(ms, subj, 3).value)
  {
    PrereqInfoSections(ms, subj);
    SectionNoAdditional(ms, Default(0), subj.code, subj.sections["prereqs"]);
    SectionNoAdditional(ms, Default(1), subj.code, subj.sections["coreqs"]);
    SectionNoAdditional(ms, Default(2), subj.code, subj.sections["antireqs"]);
    var a := SectionRun(ms, Default(0), subj.code, subj.sections["prereqs"]).value.1;
    var b := SectionRun(ms, Default(1), subj.code, subj.sections["coreqs"]).value.1;
    var c := SectionRun(ms, Default(2), subj.code, subj.sections["antireqs"]).value.1;
    NoAdditionalAppend(a, b);
    NoAdditionalAppend(a + b, c);
  }

  /** An ADDITIONAL tuple is emitted exactly when the subject has the key
      'addreqs'; it is then the last constraint and holds the lines joined
      by newlines, and no other constraint is one.  A list among those lines
      makes the extractor fail with TypeError. */
  lemma AdditionalLast(ms: seq<Matcher>, subj: Subject)
    requires TypedMatchers(ms) && Sections(ms, subj, 3).Ok?
    ensures "addreqs" in subj.sections && (exists i :: 0 <= i < |subj.sections["addreqs"]| && subj.sections["addreqs"][i].Codes?)
      ==> PrereqInfoWith(ms, subj) == Err(TypeError)
    ensures PrereqInfoWith(ms, subj).Ok? ==> var out := PrereqInfoWith(ms, subj).value;
      && (forall i :: 0 <= i < |out| - 1 ==> !out[i].Additional?)
      && ("addreqs" in subj.sections <==> out != [] && out[|out| - 1].Additional?)
      && ("addreqs" in subj.sections ==> out[|out| - 1] == Additional(Join(Texts(subj.sections["addreqs"]), "\n")))
  {
    SectionsNoAdditional(ms, subj);
    var out := Sections(ms, subj, 3).value;
    if "addreqs" in subj.sections && PrereqInfoWith(ms, subj).Ok? {
      var r := PrereqInfoWith(ms, subj).value;
      assert r == out + [Additional(Join(Texts(subj.sections["addreqs"]), "\n"))];
      assert r[..|out|] == out;
    }
  }

  /** The sections are read in order, so a subject without 'prereqs'
      fails on that key, whatever else it lacks. */
  lemma MissingPrereqs(ms: seq<Matcher>, subj: Subject)
    requires "prereqs" !in subj.sections
    ensures PrereqInfoWith(ms, subj) == Err(KeyError("prereqs"))
  {
    SectionsFail(ms, subj, 1);
  }

  /** A subject without the key 'code' fails on it as soon as a text line
      is reached, tables before it notwithstanding. */
  lemma {:induction false} CodeRequired(ms: seq<Matcher>, dflt: Pending, items: seq<Fragment>, i: nat)
    requires i < |items| && items[i].Line?
    requires forall m :: 0 <= m < i ==> items[m].Codes?
    ensures SectionRun(ms, dflt, None, items) == Err(KeyError("code"))
  {
    TablesOnly(ms, dflt, items, i);
    RunStep(ms, dflt, None, items, i);
    RunFails(ms, dflt, None, items, i + 1);
  }

  lemma {:induction false} TablesOnly(ms: seq<Matcher>, dflt: Pending, items: seq<Fragment>, n: nat)
    requires n <= |items| && forall m :: 0 <= m < n ==> items[m].Codes?
    ensures SectionRun(ms, dflt, None, items[..n]).Ok?
  {
    if n > 0 {
      TablesOnly(ms, dflt, items, n - 1);
      RunStep(ms, dflt, None, items, n - 1);
    }
  }

  /** Tables are not searched for the subject's own code: a table that
      lists it yields a SUBJECTS tuple that still names it. */
  lemma TableKeepsOwnCode(ms: seq<Matcher>, dflt: Pending, code: string)
    requires IsCode(code, false)
    ensures SectionRun(ms, dflt, Some(code), [Codes([code])]) == Ok((dflt, [Subjects(dflt.qty, [code], dflt.conc)]))
  {
    var items := [Codes([code])];
    assert items[..0] == [] && items[..1] == items;
    RunStep(ms, dflt, Some(code), items, 0);
    CleanedListOfCodes([code]);
    assert SectionRun(ms, dflt, Some(code), items[..0]) == Ok((dflt, []));
    var out := [Subjects(dflt.qty, [code], dflt.conc)];
    assert Step(ms, dflt, dflt, Some(code), items[0]) == Ok((dflt, out));
    assert [] + out == out;
  }

  /** The 'one of' cue is read in every section, antireqs included: a line
      naming no codes that says "one of", followed by a table, makes the
      table's codes a SUBJECTS tuple of quantity 1 instead of -1. */
  lemma AntireqsOneOf(ms: seq<Matcher>, code: string, t: string, cs: seq<string>)
    requires OneOfCue(t) && !ConcurrentCue(t) && LineSubjects(t, code) == []
    ensures SectionRun(ms, Default(2), Some(code), [Line(t), Codes(cs)])
      == Ok((Default(2), Somes(Results(ms, t)) + [Subjects(1, CleanedList(cs), false)]))
  {
    var items := [Line(t), Codes(cs)];
    var d := Default(2);
    assert d == Pending(-1, false);
    assert items[..0] == [] && items[..2] == items;
    RunStep(ms, d, Some(code), items, 0);
    StepLine(ms, d, d, t, code);
    var found := Somes(Results(ms, t));
    assert LineOutput(ms, d, t, code) == found;
    assert Cue(d, t) == Pending(1, false);
    assert SectionRun(ms, d, Some(code), items[..1]) == Ok((Pending(1, false), found));
    RunStep(ms, d, Some(code), items, 1);
  }
}
