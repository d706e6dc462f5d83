/** The section splitter of scrape/scrape.py: `element_text`,
    `parse_subject_table`, `parse_list`, `parse_requisites_element`, the
    merge of its two passes in `get_subject_requirements`, and the
    short-circuit of `get_requirements_href`.

    The requirements page's body is given as the sequence of its children,
    each tagged with its element name; the splitter folds over them,
    keeping the current heading, the content collected under it and the
    dictionary of finished sections.  A section's content is the fragment
    list the constraint extractor reads. */
module Requisites {

  import opened Wrappers
  import opened Text
  import opened Seqs
  import PP = ParsePrereqs

  // ---------------------------------------------------------------------
  // element_text: re.sub(r'<[^<>]*>', '', str(el)).strip()

  /** Neither `<` nor `>`: a character of `[^<>]`. */
  predicate InTag(c: char) {
    c != '<' && c != '>'
  }

  /** `s[i..j]` is a run of `[^<>]` ended by the `>` at `j`. */
  predicate TagBody(s: string, i: nat, j: nat) {
    i <= j < |s| && s[j] == '>' && forall k :: i <= k < j ==> InTag(s[k])
  }

  /** The `>` that closes a tag whose `<` is just before `i`, if any: the
      first angle bracket from `i` on, when it is a `>`. */
  function TagClose(s: string, i: nat): (r: Option<nat>)
    ensures r.Some? ==> i <= r.value < |s|
    decreases |s| - i
  {
    if i >= |s| then None
    else if s[i] == '>' then Some(i)
    else if s[i] == '<' then None
    else TagClose(s, i + 1)
  }

  /** This is where the greedy `[^<>]*` stops, so a tag opened just before
      `i` is matched there or not at all. */
  lemma {:induction false} TagCloseSpec(s: string, i: nat)
    ensures TagClose(s, i).Some? ==> TagBody(s, i, TagClose(s, i).value)
    ensures TagClose(s, i).None? ==> forall j :: i <= j < |s| ==> !TagBody(s, i, j)
    decreases |s| - i
  {
    if i < |s| && s[i] != '>' {
      TagBodyStep(s, i);
      if s[i] != '<' {
        TagCloseSpec(s, i + 1);
      }
    }
  }

  /** The `>` of a tag body is the one the scan finds. */
  lemma {:induction false} TagCloseAt(s: string, i: nat, j: nat)
    requires TagBody(s, i, j)
    ensures TagClose(s, i) == Some(j)
    decreases j - i
  {
    if i < j {
      assert InTag(s[i]);
      TagCloseAt(s, i + 1, j);
    }
  }

  /** A tag body from `i` is one from `i + 1` preceded by a character of
      `[^<>]`. */
  lemma TagBodyStep(s: string, i: nat)
    requires i < |s| && s[i] != '>'
    ensures !TagBody(s, i, i)
    ensures s[i] == '<' ==> forall j :: i <= j < |s| ==> !TagBody(s, i, j)
    ensures s[i] != '<' ==> forall j :: i < j < |s| ==> (TagBody(s, i, j) <==> TagBody(s, i + 1, j))
  {
    if s[i] == '<' {
      forall j | i < j < |s| ensures !TagBody(s, i, j) {
        assert !InTag(s[i]);
      }
    }
  }

  /** `re.sub(r'<[^<>]*>', '', s)`: one left-to-right pass that deletes each
      `<...>` span with no angle bracket inside.  Text that a deletion
      brings together is not scanned again. */
  function RemoveTags(s: string): (r: string)
    ensures |r| <= |s|
    decreases |s|
  {
    if s == [] then []
    else if s[0] == '<' && TagClose(s, 1).Some? then RemoveTags(s[TagClose(s, 1).value + 1..])
    else [s[0]] + RemoveTags(s[1..])
  }

  /** `element_text(el)`, given the markup `str(el)`. */
  function ElementText(html: string): string {
    Strip(RemoveTags(html))
  }

  /** Text before the first `<` passes through the pass untouched. */
  lemma {:induction false} RemoveTagsPrefix(t: string, s: string)
    requires '<' !in t
    ensures RemoveTags(t + s) == t + RemoveTags(s)
  {
    if t != [] {
      assert (t + s)[0] == t[0] && (t + s)[1..] == t[1..] + s;
      RemoveTagsPrefix(t[1..], s);
    } else {
      assert t + s == s;
    }
  }

  /** A string without `<` is left as it is, so its element text is the
      string stripped. */
  lemma ElementTextPlain(s: string)
    requires '<' !in s
    ensures RemoveTags(s) == s
    ensures ElementText(s) == Strip(s)
  {
    RemoveTagsPrefix(s, []);
    assert s + [] == s;
  }

  /** A tag `<` x `>` at the front is deleted whole. */
  lemma RemoveTagsTag(x: string, s: string)
    requires forall k :: 0 <= k < |x| ==> InTag(x[k])
    ensures RemoveTags("<" + x + ">" + s) == RemoveTags(s)
  {
    var w := "<" + x + ">" + s;
    assert TagBody(w, 1, |x| + 1) by {
      forall k | 1 <= k < |x| + 1 ensures InTag(w[k]) {
        assert w[k] == x[k - 1];
      }
    }
    TagCloseAt(w, 1, |x| + 1);
    assert w[|x| + 2..] == s;
  }

  /** The text of an element wrapped in one opening and one closing tag is
      its inner text stripped, as for `<li>` items. */
  lemma ElementTextWrapped(a: string, t: string, b: string)
    requires forall k :: 0 <= k < |a| ==> InTag(a[k])
    requires forall k :: 0 <= k < |b| ==> InTag(b[k])
    requires '<' !in t
    ensures ElementText("<" + a + ">" + t + "<" + b + ">") == Strip(t)
  {
    var close := "<" + b + ">";
    assert "<" + a + ">" + t + "<" + b + ">" == "<" + a + ">" + (t + close);
    RemoveTagsTag(a, t + close);
    RemoveTagsPrefix(t, close);
    RemoveTagsTag(b, []);
    assert close + [] == close;
    assert t + [] == t;
  }

  /** One pass only: deleting the inner tag of `<<b>>` leaves `<>`, which
      is not removed. */
  lemma OnePass()
    ensures RemoveTags("<<b>>") == "<>"
  {
    var s := "<<b>>";
    assert TagClose(s, 1).None?;
    assert s[1..] == "<b>" + ">";
    RemoveTagsTag("b", ">");
    assert RemoveTags(">") == ">";
  }

  // ---------------------------------------------------------------------
  // parse_subject_table and parse_list

  /** The exception a malformed table raises: a row without cells makes
      `tr.select('td')[0]` fail. */
  datatype Error = IndexError

  /** The first cell's string of each row, in row order. */
  function FirstCells(rows: seq<seq<string>>): (r: Result<seq<string>, Error>)
    ensures r.Ok? <==> forall i :: 0 <= i < |rows| ==> rows[i] != []
    ensures r.Ok? ==> |r.value| == |rows| && forall i :: 0 <= i < |rows| ==> r.value[i] == rows[i][0]
    ensures r.Err? ==> r.error == IndexError
    decreases |rows|
  {
    if rows == [] then Ok([])
    else
      var last := rows[|rows| - 1];
      match FirstCells(rows[..|rows| - 1])
      case Err(e) => Err(e)
      case Ok(cells) => if last == [] then Err(IndexError) else Ok(cells + [last[0]])
  }

  /** `parse_subject_table(table)`, given the cell strings of each row. */
  method ParseSubjectTable(rows: seq<seq<string>>) returns (r: Result<seq<string>, Error>)
    ensures r == FirstCells(rows)
  {
    var subjects: seq<string> := [];
    for i := 0 to |rows|
      invariant FirstCells(rows[..i]) == Ok(subjects)
    {
      if rows[i] == [] {
        return Err(IndexError);
      }
      assert rows[..i + 1][..i] == rows[..i];
      subjects := subjects + [rows[i][0]];
    }
    assert rows[..|rows|] == rows;
    return Ok(subjects);
  }

  /** The element text of each list item, in order. */
  function ItemTexts(items: seq<string>): (r: seq<string>)
    ensures |r| == |items|
  {
    if items == [] then [] else ItemTexts(items[..|items| - 1]) + [ElementText(items[|items| - 1])]
  }

  /** The `i`-th entry of a list is the text of its `i`-th item. */
  lemma {:induction false} ItemTextsAt(items: seq<string>, i: nat)
    requires i < |items|
    ensures ItemTexts(items)[i] == ElementText(items[i])
  {
    var init := items[..|items| - 1];
    var last := items[|items| - 1];
    assert ItemTexts(items) == ItemTexts(init) + [ElementText(last)];
    if i < |items| - 1 {
      ItemTextsAt(init, i);
      assert init[i] == items[i];
    }
  }

  /** `parse_list(ul)`, given the markup of each `li`. */
  method ParseList(items: seq<string>) returns (entries: seq<string>)
    ensures entries == ItemTexts(items)
  {
    entries := [];
    for i := 0 to |items|
      invariant entries == ItemTexts(items[..i])
    {
      assert items[..i + 1][..i] == items[..i];
      entries := entries + [ElementText(items[i])];
    }
    assert items[..|items|] == items;
  }

  // ---------------------------------------------------------------------
  // parse_requisites_element

  /** A child of the body, by element name; `Other` is any other element,
      given by its markup. */
  datatype Child =
    | H3(heading: string)
    | Table(rows: seq<seq<string>>)
    | Ul(items: seq<string>)
    | Div
    | H2
    | Other(html: string)

  /** The headings that have a short key. */
  const Aliases: map<string, string> := map[
    "Prerequisites" := "prereqs",
    "Corequisites" := "coreqs",
    "Non-allowed subjects" := "antireqs",
    "Additional Entry Requirements" := "addreqs",
    "Inherent requirements (core participation requirements)" := "inherent",
    "Recommended background knowledge" := "background"
  ]

  /** The key a section is stored under. */
  function Alias(h: string): string {
    if h in Aliases then Aliases[h] else h
  }

  /** The six headings get their short keys, each a different one; every
      other heading is its own key, so applying the alias twice changes
      nothing, and a heading spelled like a short key lands on the same key
      as the heading it abbreviates. */
  lemma AliasTable(h: string)
    ensures h in Aliases ==> Alias(h) in {"prereqs", "coreqs", "antireqs", "addreqs", "inherent", "background"}
    ensures h !in Aliases ==> Alias(h) == h
    ensures Alias(Alias(h)) == Alias(h)
    ensures Alias(h) == "" <==> h == ""
    ensures Alias("Prerequisites") == Alias("prereqs") == "prereqs"
    ensures forall g :: g in Aliases && h in Aliases && Aliases[g] == Aliases[h] ==> g == h
  {
  }

  /** The splitter's variables: the finished sections, the current heading
      and what has been collected under it. */
  datatype Splitter = Splitter(info: map<string, seq<PP.Fragment>>, heading: string, content: seq<PP.Fragment>)

  const Start: Splitter := Splitter(map[], "", [])

  /** What one child other than a `div` does to the splitter.  An `h3`
      stores the content under the current heading only when that heading
      is not empty. */
  function Apply(st: Splitter, c: Child): Result<Splitter, Error>
    requires !c.Div?
  {
    match c
    case H3(h) =>
      Ok(Splitter(if st.heading != "" then st.info[Alias(st.heading) := st.content] else st.info, h, []))
    case Table(rows) =>
      (match FirstCells(rows)
       case Err(e) => Err(e)
       case Ok(cells) => Ok(st.(content := st.content + [PP.Codes(cells)])))
    case Ul(items) => Ok(st.(content := st.content + [PP.Codes(ItemTexts(items))]))
    case H2 => Ok(st)
    case Other(html) =>
      var text := ElementText(html);
      Ok(if text != "" then st.(content := st.content + [PP.Line(text)]) else st)
  }

  /** The loop over the children: a `div` ends it, an exception aborts it. */
  function Fold(st: Splitter, children: seq<Child>): Result<Splitter, Error>
    decreases |children|
  {
    if children == [] || children[0].Div? then Ok(st)
    else
      match Apply(st, children[0])
      case Err(e) => Err(e)
      case Ok(st') => Fold(st', children[1..])
  }

  /** The final store of the content under the current heading, empty or
      not. */
  function Commit(st: Splitter): map<string, seq<PP.Fragment>> {
    st.info[Alias(st.heading) := st.content]
  }

  /** A line that is one of the boilerplate statements. */
  predicate Boilerplate(f: PP.Fragment, inherent: set<string>) {
    f.Line? && f.text in inherent
  }

  /** `[i for i in frags if i not in INHERENT]`: a list is never equal to a
      string, so lists are always kept. */
  function DropInherent(frags: seq<PP.Fragment>, inherent: set<string>): (r: seq<PP.Fragment>)
    ensures |r| <= |frags|
    ensures forall i :: 0 <= i < |r| ==> r[i] in frags && !Boilerplate(r[i], inherent)
    ensures forall i :: 0 <= i < |frags| && !Boilerplate(frags[i], inherent) ==> frags[i] in r
  {
    if frags == [] then []
    else
      var init := DropInherent(frags[..|frags| - 1], inherent);
      var last := frags[|frags| - 1];
      assert forall i :: 0 <= i < |frags| - 1 ==> frags[i] == frags[..|frags| - 1][i];
      init + (if Boilerplate(last, inherent) then [] else [last])
  }

  /** Dropping boilerplate works piece by piece, so the kept fragments stay
      in their order. */
  lemma {:induction false} DropInherentAppend(a: seq<PP.Fragment>, b: seq<PP.Fragment>, inherent: set<string>)
    ensures DropInherent(a + b, inherent) == DropInherent(a, inherent) + DropInherent(b, inherent)
    decreases |b|
  {
    if b == [] {
      assert a + b == a;
    } else {
      var b' := b[..|b| - 1];
      assert (a + b)[..|a + b| - 1] == a + b';
      DropInherentAppend(a, b', inherent);
    }
  }

  /** A fragment on its own is dropped exactly when it is boilerplate. */
  lemma DropInherentOne(f: PP.Fragment, inherent: set<string>)
    ensures DropInherent([f], inherent) == if Boilerplate(f, inherent) then [] else [f]
  {
    assert [f][..0] == [];
  }

  /** The post-processing: only the section 'inherent' changes. */
  function FilterInherent(info: map<string, seq<PP.Fragment>>, inherent: set<string>): (r: map<string, seq<PP.Fragment>>)
    ensures r.Keys == info.Keys
    ensures forall k :: k in info && k != "inherent" ==> r[k] == info[k]
    ensures "inherent" in info ==> r["inherent"] == DropInherent(info["inherent"], inherent)
  {
    if "inherent" in info then info["inherent" := DropInherent(info["inherent"], inherent)] else info
  }

  /** `parse_requisites_element(children)` with the boilerplate statements
      `inherent`. */
  function RequisitesInfo(children: seq<Child>, inherent: set<string>): Result<map<string, seq<PP.Fragment>>, Error> {
    match Fold(Start, children)
    case Err(e) => Err(e)
    case Ok(st) => Ok(FilterInherent(Commit(st), inherent))
  }

  /** `parse_requisites_element(children)`. */
  method ParseRequisitesElement(children: seq<Child>, inherent: set<string>) returns (r: Result<map<string, seq<PP.Fragment>>, Error>)
    ensures r == RequisitesInfo(children, inherent)
  {
    var info: map<string, seq<PP.Fragment>> := map[];
    var heading := "";
    var content: seq<PP.Fragment> := [];
    var i := 0;
    while i < |children|
      invariant 0 <= i <= |children|
      invariant Fold(Start, children) == Fold(Splitter(info, heading, content), children[i..])
    {
      var child := children[i];
      assert children[i..][0] == child && children[i..][1..] == children[i + 1..];
      if child.H3? {
        if heading != "" {
          info := info[Alias(heading) := content];
        }
        heading := child.heading;
        content := [];
      } else if child.Table? {
        var cells := ParseSubjectTable(child.rows);
        if cells.Err? {
          return Err(cells.error);
        }
        content := content + [PP.Codes(cells.value)];
      } else if child.Ul? {
        var entries := ParseList(child.items);
        assert entries == ItemTexts(child.items);
        content := content + [PP.Codes(entries)];
      } else if child.Div? {
        break;
      } else if child.H2? {
      } else {
        var text := ElementText(child.html);
        if text != "" {
          content := content + [PP.Line(text)];
        }
      }
      i := i + 1;
    }
    assert Fold(Start, children) == Ok(Splitter(info, heading, content));
    info := info[Alias(heading) := content];
    if "inherent" in info {
      info := info["inherent" := DropInherent(info["inherent"], inherent)];
    }
    return Ok(info);
  }

  // ---------------------------------------------------------------------
  // Properties of the splitter

  /** A child that neither starts a section nor ends the loop. */
  predicate Body(c: Child) {
    !c.H3? && !c.Div?
  }

  predicate AllBody(cs: seq<Child>) {
    forall i :: 0 <= i < |cs| ==> Body(cs[i])
  }

  predicate NoDiv(cs: seq<Child>) {
    forall i :: 0 <= i < |cs| ==> !cs[i].Div?
  }

  /** What a body child adds to its section: a table the first cell of
      each row, a list the text of each item, any other element its text
      when that is not empty, and an `h2` nothing. */
  function Piece(c: Child): Result<seq<PP.Fragment>, Error>
    requires Body(c)
  {
    match c
    case Table(rows) =>
      (match FirstCells(rows)
       case Err(e) => Err(e)
       case Ok(cells) => Ok([PP.Codes(cells)]))
    case Ul(items) => Ok([PP.Codes(ItemTexts(items))])
    case H2 => Ok([])
    case Other(html) => Ok(if ElementText(html) != "" then [PP.Line(ElementText(html))] else [])
  }

  /** The pieces of a run of body children, in document order. */
  function Entries(cs: seq<Child>): Result<seq<PP.Fragment>, Error>
    requires AllBody(cs)
  {
    if cs == [] then Ok([])
    else
      match Piece(cs[0])
      case Err(e) => Err(e)
      case Ok(p) =>
        (match Entries(cs[1..])
         case Err(e) => Err(e)
         case Ok(rest) => Ok(p + rest))
  }

  /** A body child appends its piece and changes nothing else. */
  lemma ApplyBody(st: Splitter, c: Child)
    requires Body(c)
    ensures Piece(c).Err? ==> Apply(st, c) == Err(Piece(c).error)
    ensures Piece(c).Ok? ==> Apply(st, c) == Ok(st.(content := st.content + Piece(c).value))
  {
    assert st.content + [] == st.content;
  }

  /** A run of body children appends its pieces, in order, to the current
      section. */
  lemma {:induction false} SectionBody(st: Splitter, cs: seq<Child>)
    requires AllBody(cs)
    ensures Entries(cs).Err? ==> Fold(st, cs) == Err(Entries(cs).error)
    ensures Entries(cs).Ok? ==> Fold(st, cs) == Ok(st.(content := st.content + Entries(cs).value))
    decreases |cs|
  {
    if cs == [] {
      assert st.content + [] == st.content;
    } else {
      ApplyBody(st, cs[0]);
      if Piece(cs[0]).Ok? {
        var st' := st.(content := st.content + Piece(cs[0]).value);
        SectionBody(st', cs[1..]);
        if Entries(cs).Ok? {
          assert st'.content + Entries(cs[1..]).value == st.content + Entries(cs).value;
        }
      }
    }
  }

  /** Without a `div` in `a`, the loop over `a + b` is the loop over `a`
      and then over `b`. */
  lemma {:induction false} FoldAppend(st: Splitter, a: seq<Child>, b: seq<Child>)
    requires NoDiv(a)
    ensures Fold(st, a).Err? ==> Fold(st, a + b) == Fold(st, a)
    ensures Fold(st, a).Ok? ==> Fold(st, a + b) == Fold(Fold(st, a).value, b)
    decreases |a|
  {
    if a == [] {
      assert a + b == b;
    } else {
      assert (a + b)[0] == a[0] && (a + b)[1..] == a[1..] + b;
      if Apply(st, a[0]).Ok? {
        FoldAppend(Apply(st, a[0]).value, a[1..], b);
      }
    }
  }

  /** A `div` ends the loop: whatever follows it is ignored. */
  lemma DivStops(a: seq<Child>, b: seq<Child>, inherent: set<string>)
    requires NoDiv(a)
    ensures RequisitesInfo(a + [Div] + b, inherent) == RequisitesInfo(a, inherent)
  {
    assert a + [Div] + b == a + ([Div] + b);
    FoldAppend(Start, a, [Div] + b);
    FoldAppend(Start, a, []);
    assert a + [] == a;
  }

  /** An `h2`, or an element whose text is empty, changes nothing. */
  lemma Ignored(a: seq<Child>, c: Child, b: seq<Child>, inherent: set<string>)
    requires NoDiv(a)
    requires c.H2? || (c.Other? && ElementText(c.html) == "")
    ensures RequisitesInfo(a + [c] + b, inherent) == RequisitesInfo(a + b, inherent)
  {
    assert a + [c] + b == a + ([c] + b);
    FoldAppend(Start, a, [c] + b);
    FoldAppend(Start, a, b);
    assert ([c] + b)[1..] == b;
  }

  /** Without any `h3`, everything lands under the key ''. */
  lemma NoHeading(cs: seq<Child>, inherent: set<string>)
    requires AllBody(cs)
    ensures Entries(cs).Err? ==> RequisitesInfo(cs, inherent) == Err(Entries(cs).error)
    ensures Entries(cs).Ok? ==> RequisitesInfo(cs, inherent) == Ok(map["" := Entries(cs).value])
  {
    SectionBody(Start, cs);
    assert Alias("") == "";
    if Entries(cs).Ok? {
      assert [] + Entries(cs).value == Entries(cs).value;
    }
  }

  /** While the heading is empty, an `h3` stores nothing: what was
      collected since is dropped. */
  lemma HeadinglessRun(st: Splitter, mid: seq<Child>, h: string, post: seq<Child>)
    requires st.heading == "" && AllBody(mid) && Entries(mid).Ok?
    ensures Fold(st, mid + [H3(h)] + post) == Fold(Splitter(st.info, h, []), post)
  {
    assert mid + [H3(h)] + post == mid + ([H3(h)] + post);
    FoldAppend(st, mid, [H3(h)] + post);
    SectionBody(st, mid);
    assert ([H3(h)] + post)[1..] == post;
  }

  /** Content before the first `h3` is discarded once an `h3` arrives. */
  lemma PreambleDiscarded(mid: seq<Child>, h: string, post: seq<Child>, inherent: set<string>)
    requires AllBody(mid) && Entries(mid).Ok?
    ensures RequisitesInfo(mid + [H3(h)] + post, inherent) == RequisitesInfo([H3(h)] + post, inherent)
  {
    HeadinglessRun(Start, mid, h, post);
    assert ([H3(h)] + post)[1..] == post;
  }

  /** An `h3` with empty text ends the section before it, and what follows
      it up to the next `h3` is discarded. */
  lemma EmptyHeadingDiscards(pre: seq<Child>, mid: seq<Child>, h: string, post: seq<Child>, inherent: set<string>)
    requires NoDiv(pre) && Fold(Start, pre).Ok?
    requires AllBody(mid) && Entries(mid).Ok?
    ensures RequisitesInfo(pre + [H3("")] + mid + [H3(h)] + post, inherent)
      == RequisitesInfo(pre + [H3(h)] + post, inherent)
  {
    var st := Fold(Start, pre).value;
    var rest := mid + [H3(h)] + post;
    assert pre + [H3("")] + mid + [H3(h)] + post == pre + ([H3("")] + rest);
    assert pre + [H3(h)] + post == pre + ([H3(h)] + post);
    FoldAppend(Start, pre, [H3("")] + rest);
    FoldAppend(Start, pre, [H3(h)] + post);
    assert ([H3("")] + rest)[1..] == rest;
    assert ([H3(h)] + post)[1..] == post;
    var info := if st.heading != "" then st.info[Alias(st.heading) := st.content] else st.info;
    HeadinglessRun(Splitter(info, "", []), mid, h, post);
  }

  /** The section after the last `h3` is stored, whole and in order, under
      that heading's key (less its boilerplate when the key is
      'inherent'). */
  lemma LastSectionWins(pre: seq<Child>, h: string, post: seq<Child>, inherent: set<string>)
    requires NoDiv(pre) && Fold(Start, pre).Ok?
    requires AllBody(post) && Entries(post).Ok?
    ensures RequisitesInfo(pre + [H3(h)] + post, inherent).Ok?
    ensures Alias(h) in RequisitesInfo(pre + [H3(h)] + post, inherent).value
    ensures var e := Entries(post).value;
      RequisitesInfo(pre + [H3(h)] + post, inherent).value[Alias(h)]
        == if Alias(h) == "inherent" then DropInherent(e, inherent) else e
  {
    var st := Fold(Start, pre).value;
    assert pre + [H3(h)] + post == pre + ([H3(h)] + post);
    FoldAppend(Start, pre, [H3(h)] + post);
    assert ([H3(h)] + post)[1..] == post;
    var info := if st.heading != "" then st.info[Alias(st.heading) := st.content] else st.info;
    SectionBody(Splitter(info, h, []), post);
    assert [] + Entries(post).value == Entries(post).value;
  }

  /** Two runs of the loop that end in the same dictionary once the final
      store is made, or in the same exception. */
  predicate SameOutcome(s1: Result<Splitter, Error>, s2: Result<Splitter, Error>) {
    && (s1.Err? <==> s2.Err?)
    && (s1.Err? ==> s1 == s2)
    && (s1.Ok? ==> Commit(s1.value) == Commit(s2.value))
  }

  /** Storing a stale value under the current heading's key makes no
      difference: the next store under that key replaces it. */
  lemma {:induction false} FoldOverwritten(st: Splitter, v: seq<PP.Fragment>, cs: seq<Child>)
    requires st.heading != ""
    ensures SameOutcome(Fold(st.(info := st.info[Alias(st.heading) := v]), cs), Fold(st, cs))
    decreases |cs|
  {
    var k := Alias(st.heading);
    var st1 := st.(info := st.info[k := v]);
    if cs == [] || cs[0].Div? {
      assert st.info[k := v][k := st.content] == st.info[k := st.content];
    } else if cs[0].H3? {
      assert st.info[k := v][k := st.content] == st.info[k := st.content];
      assert Apply(st1, cs[0]) == Apply(st, cs[0]);
    } else {
      ApplyBody(st, cs[0]);
      ApplyBody(st1, cs[0]);
      if Piece(cs[0]).Ok? {
        var st' := st.(content := st.content + Piece(cs[0]).value);
        assert Apply(st1, cs[0]).value == st'.(info := st'.info[k := v]);
        FoldOverwritten(st', v, cs[1..]);
      }
    }
  }

  /** A section under a non-empty heading is stored when the next `h3`
      arrives. */
  lemma SectionThenHeading(info: map<string, seq<PP.Fragment>>, h1: string, mid: seq<Child>, h2: string, post: seq<Child>)
    requires h1 != "" && AllBody(mid) && Entries(mid).Ok?
    ensures Fold(Splitter(info, h1, []), mid + ([H3(h2)] + post))
      == Fold(Splitter(info[Alias(h1) := Entries(mid).value], h2, []), post)
  {
    var sA := Splitter(info, h1, []);
    FoldAppend(sA, mid, [H3(h2)] + post);
    SectionBody(sA, mid);
    assert [] + Entries(mid).value == Entries(mid).value;
    assert ([H3(h2)] + post)[1..] == post;
  }

  /** From any state, a section under `h1` followed by a heading with
      the same key comes to the same as that heading alone. */
  lemma SameKeyFrom(st: Splitter, h1: string, mid: seq<Child>, h2: string, post: seq<Child>)
    requires h1 != "" && Alias(h1) == Alias(h2)
    requires AllBody(mid) && Entries(mid).Ok?
    ensures SameOutcome(Fold(st, [H3(h1)] + (mid + ([H3(h2)] + post))), Fold(st, [H3(h2)] + post))
  {
    AliasTable(h1);
    AliasTable(h2);
    var rest := mid + ([H3(h2)] + post);
    assert ([H3(h1)] + rest)[1..] == rest;
    assert ([H3(h2)] + post)[1..] == post;
    var info := if st.heading != "" then st.info[Alias(st.heading) := st.content] else st.info;
    SectionThenHeading(info, h1, mid, h2, post);
    FoldOverwritten(Splitter(info, h2, []), Entries(mid).value, post);
  }

  /** A later heading with the same key overwrites the earlier section. */
  lemma SameKeyOverwrites(pre: seq<Child>, h1: string, mid: seq<Child>, h2: string, post: seq<Child>, inherent: set<string>)
    requires NoDiv(pre) && Fold(Start, pre).Ok?
    requires h1 != "" && Alias(h1) == Alias(h2)
    requires AllBody(mid) && Entries(mid).Ok?
    ensures RequisitesInfo(pre + [H3(h1)] + mid + [H3(h2)] + post, inherent)
      == RequisitesInfo(pre + [H3(h2)] + post, inherent)
  {
    var rest := mid + ([H3(h2)] + post);
    var long, short := pre + ([H3(h1)] + rest), pre + ([H3(h2)] + post);
    Regroup(pre, H3(h1), mid, H3(h2), post);
    FoldAppend(Start, pre, [H3(h1)] + rest);
    FoldAppend(Start, pre, [H3(h2)] + post);
    SameKeyFrom(Fold(Start, pre).value, h1, mid, h2, post);
    SameOutcomeInfo(long, short, inherent);
  }

  /** Children whose folds come to the same give the same dictionary. */
  lemma SameOutcomeInfo(a: seq<Child>, b: seq<Child>, inherent: set<string>)
    requires SameOutcome(Fold(Start, a), Fold(Start, b))
    ensures RequisitesInfo(a, inherent) == RequisitesInfo(b, inherent)
  {
  }

  // ---------------------------------------------------------------------
  // get_subject_requirements and get_requirements_href

  /** A value of the subject's requirements dictionary: the page's
      last-updated stamp, or a section. */
  datatype Value = Updated(stamp: string) | Section(fragments: seq<PP.Fragment>)

  function Sections(info: map<string, seq<PP.Fragment>>): (r: map<string, Value>)
    ensures r.Keys == info.Keys
    ensures forall k :: k in info ==> r[k] == Section(info[k])
  {
    map k | k in info :: Section(info[k])
  }

  /** The merge of `get_subject_requirements`: `{'updated': stamp}`, then
      the sections of the prerequisites `div`, then the sections of the
      other children of the body.  A later pass overwrites the keys of an
      earlier one, and an exception in either pass escapes. */
  method GetSubjectRequirements(stamp: string, prereqChildren: seq<Child>, children: seq<Child>, inherent: set<string>)
    returns (r: Result<map<string, Value>, Error>)
    ensures var a := RequisitesInfo(prereqChildren, inherent);
      var b := RequisitesInfo(children, inherent);
      && (r.Ok? <==> a.Ok? && b.Ok?)
      && (a.Err? ==> r == Err(a.error))
      && (a.Ok? && b.Err? ==> r == Err(b.error))
      && (r.Ok? ==>
          && r.value.Keys == {"updated"} + a.value.Keys + b.value.Keys
          && (forall k :: k in b.value ==> r.value[k] == Section(b.value[k]))
          && (forall k :: k in a.value && k !in b.value ==> r.value[k] == Section(a.value[k]))
          && ("updated" !in a.value && "updated" !in b.value ==> r.value["updated"] == Updated(stamp)))
  {
    var info: map<string, Value> := map["updated" := Updated(stamp)];
    var first := ParseRequisitesElement(prereqChildren, inherent);
    if first.Err? {
      return Err(first.error);
    }
    info := info + Sections(first.value);
    var second := ParseRequisitesElement(children, inherent);
    if second.Err? {
      return Err(second.error);
    }
    info := info + Sections(second.value);
    return Ok(info);
  }

  /** The path segment that marks a requirements page. */
  const RequirementsMarker := "eligibility-and-requirements"

  /** `get_requirements_href(href)`: an href that already names a
      requirements page is returned as it is, without fetching anything;
      otherwise the result is the href of the link `linked` found on the
      fetched overview page. */
  function RequirementsHref(href: string, linked: string): (r: string)
    ensures Contains(href, RequirementsMarker) ==> r == href
    ensures !Contains(href, RequirementsMarker) ==> r == linked
  {
    if Contains(href, RequirementsMarker) then href else linked
  }
}
