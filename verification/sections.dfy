/** Step 2 of the route: the request body's entries are filtered down to the
    non-blank strings, each kept entry becomes a "label:\ncontent" section, and
    the sections are joined with a blank line between them. */
module SectionBuilder {
  import opened Strings

  /** A body value as the filter sees it: `typeof value === 'string'` or anything else
      (number, boolean, null, array, object). */
  datatype Value = Text(s: string) | Other

  /** One `[key, value]` pair of `Object.entries(data)`. */
  type Entry = (string, Value)

  /** A section before it is flattened to text: `name` is the label shown
      before the colon, `content` the trimmed value. */
  datatype Section = Section(name: string, content: string)

  const SectionSeparator := "\n\n"

  /** The filter: a string value that is not blank once trimmed. */
  predicate Qualifies(e: Entry)
    ensures Qualifies(e) <==> e.1.Text? && !AllWhitespace(e.1.s)
  {
    if e.1.Text? then TrimEmptyIff(e.1.s); Trim(e.1.s) != "" else false
  }

  /** The key with every underscore turned into a space. */
  function Label(key: string): (r: string)
    ensures |r| == |key|
    ensures '_' !in r
    ensures forall i :: 0 <= i < |key| && key[i] != '_' ==> r[i] == key[i]
    ensures forall i :: 0 <= i < |key| && key[i] == '_' ==> r[i] == ' '
  {
    ReplaceAll(key, '_', ' ')
  }

  /** One kept entry as a section: the key's label and the value with its outer
      whitespace removed and nothing else changed. */
  function ToSection(e: Entry): (r: Section)
    requires e.1.Text?
    ensures r.name == Label(e.0)
    ensures |r.name| == |e.0| && '_' !in r.name
    ensures NoOuterWhitespace(r.content)
    ensures r.content != "" <==> Qualifies(e)
    ensures exists a :: 0 <= a <= |e.1.s| - |r.content| && e.1.s[a..a + |r.content|] == r.content
              && AllWhitespace(e.1.s[..a]) && AllWhitespace(e.1.s[a + |r.content|..])
  {
    TrimSplits(e.1.s);
    var a := ContentStart(e.1.s, 0);
    var c := Trim(e.1.s);
    assert e.1.s[a..a + |c|] == c;
    Section(Label(e.0), c)
  }

  /** A section as text: the label, a colon, a line break, then the content. */
  function Render(sec: Section): (r: string)
    ensures StartsWith(r, sec.name + ":\n")
    ensures r[|sec.name| + 2..] == sec.content
  {
    sec.name + ":\n" + sec.content
  }

  /** The kept entries as sections, in body order. */
  function Sections(es: seq<Entry>): (r: seq<Section>)
    ensures |r| <= |es|
    ensures forall k :: 0 <= k < |r| ==> '_' !in r[k].name
    ensures forall k :: 0 <= k < |r| ==> r[k].content != "" && NoOuterWhitespace(r[k].content)
  {
    if |es| == 0 then []
    else (if Qualifies(es[0]) then [ToSection(es[0])] else []) + Sections(es[1..])
  }

  /** Entry i of the body exists and contributes a section. */
  predicate Kept(es: seq<Entry>, i: int) {
    0 <= i < |es| && Qualifies(es[i])
  }

  /** The positions in `es` of the entries that contribute a section: strictly
      increasing, each one qualifying, and no qualifying position left out. */
  function Origins(es: seq<Entry>): (r: seq<nat>)
    ensures |r| <= |es|
    ensures forall k :: 0 <= k < |r| ==> Kept(es, r[k])
    ensures forall k, l :: 0 <= k < l < |r| ==> r[k] < r[l]
    ensures forall i :: Kept(es, i) ==> i in r
  {
    if |es| == 0 then []
    else
      var init := es[..|es| - 1];
      var prior := Origins(init);
      var last: seq<nat> := if Kept(es, |es| - 1) then [|es| - 1] else [];
      OriginsStep(es, init, prior, last);
      prior + last
  }

  /** The inductive step of Origins: the positions of the body without its last
      entry, then the last position if that entry is kept. */
  lemma OriginsStep(es: seq<Entry>, init: seq<Entry>, prior: seq<nat>, last: seq<nat>)
    requires |es| > 0 && init == es[..|es| - 1]
    requires last == if Kept(es, |es| - 1) then [|es| - 1] else []
    requires |prior| <= |init|
    requires forall k :: 0 <= k < |prior| ==> Kept(init, prior[k])
    requires forall k, l :: 0 <= k < l < |prior| ==> prior[k] < prior[l]
    requires forall i :: Kept(init, i) ==> i in prior
    ensures |prior + last| <= |es|
    ensures forall k :: 0 <= k < |prior + last| ==> Kept(es, (prior + last)[k])
    ensures forall k, l :: 0 <= k < l < |prior + last| ==> (prior + last)[k] < (prior + last)[l]
    ensures forall i :: Kept(es, i) ==> i in prior + last
  {
    KeptPrefix(es, init);
    var r := prior + last;
    forall k | 0 <= k < |r| ensures Kept(es, r[k]) {
      if k < |prior| { assert r[k] == prior[k]; }
    }
    forall i | Kept(es, i) ensures i in r {
      if i < |init| { assert i in prior; }
    }
  }

  /** Positions below the cut keep or drop their entry alike in a prefix. */
  lemma KeptPrefix(es: seq<Entry>, init: seq<Entry>)
    requires |init| <= |es| && init == es[..|init|]
    ensures forall i :: Kept(init, i) <==> i < |init| && Kept(es, i)
  {
    forall i | 0 <= i < |init| ensures init[i] == es[i] {
    }
  }

  /** Section k is exactly entry Origins(es)[k] rendered: label from its key,
      content its trimmed value. Together with the contract of Origins this says
      an entry contributes a section iff it qualifies, and order is preserved. */
  lemma {:induction false} SectionsFromOrigins(es: seq<Entry>)
    ensures |Sections(es)| == |Origins(es)|
    ensures forall k :: 0 <= k < |Sections(es)| ==>
              Sections(es)[k] == ToSection(es[Origins(es)[k]])
  {
    if |es| > 0 {
      var init := es[..|es| - 1];
      var last := es[|es| - 1];
      assert es == init + [last];
      SectionsFromOrigins(init);
      SectionsAppend(init, [last]);
      SectionsSingle(last);
      var prior := Origins(init);
      forall k | 0 <= k < |prior| ensures es[prior[k]] == init[prior[k]] {
      }
    }
  }

  lemma SectionsSingle(e: Entry)
    ensures Sections([e]) == if Qualifies(e) then [ToSection(e)] else []
  {
    assert [e][1..] == [];
  }

  /** Filtering commutes with concatenation of the entry list: the sections of a
      body are those of its first part followed by those of the rest. */
  lemma {:induction false} SectionsAppend(a: seq<Entry>, b: seq<Entry>)
    ensures Sections(a + b) == Sections(a) + Sections(b)
    decreases |a|
  {
    if |a| == 0 {
      assert a + b == b;
    } else {
      assert (a + b)[1..] == a[1..] + b;
      SectionsAppend(a[1..], b);
    }
  }

  function RenderAll(secs: seq<Section>): (r: seq<string>)
    ensures |r| == |secs|
  {
    seq(|secs|, k requires 0 <= k < |secs| => Render(secs[k]))
  }

  /** The `sections` string the route interpolates into the user message. */
  function SectionsText(es: seq<Entry>): (r: string)
    ensures r == "" <==> forall i :: !Kept(es, i)
  {
    SectionsFromOrigins(es);
    var rs := RenderAll(Sections(es));
    assert |rs| > 0 ==> |rs[0]| >= 2 && Kept(es, Origins(es)[0]);
    Join(rs, SectionSeparator)
  }

  /** The sections string is empty exactly when the list of sections is: each
      section renders to at least its ":\n". */
  lemma SectionsTextEmptyWhenNoSections(es: seq<Entry>)
    ensures SectionsText(es) == "" <==> Sections(es) == []
  {
    var rs := RenderAll(Sections(es));
    if |rs| > 0 {
      assert |rs[0]| >= 2;
    }
  }

  /** Appending one entry to the body extends the sections string by that entry's
      section, preceded by the separator unless it is the first one kept. */
  lemma SectionsTextSnoc(es: seq<Entry>, e: Entry)
    ensures !Qualifies(e) ==> SectionsText(es + [e]) == SectionsText(es)
    ensures Qualifies(e) ==>
              SectionsText(es + [e]) ==
                (if SectionsText(es) == "" then "" else SectionsText(es) + SectionSeparator)
                + Render(ToSection(e))
  {
    SectionsAppend(es, [e]);
    SectionsSingle(e);
    SectionsTextEmptyWhenNoSections(es);
    var secs := Sections(es);
    if Qualifies(e) {
      var sec := ToSection(e);
      assert Sections(es + [e]) == secs + [sec];
      RenderAllSnoc(secs, sec);
      JoinSnoc(RenderAll(secs), Render(sec), SectionSeparator);
      assert SectionsText(es + [e]) == Join(RenderAll(secs) + [Render(sec)], SectionSeparator);
    } else {
      assert Sections(es + [e]) == secs;
    }
  }

  lemma RenderAllSnoc(secs: seq<Section>, sec: Section)
    ensures RenderAll(secs + [sec]) == RenderAll(secs) + [Render(sec)]
  {
  }
}
