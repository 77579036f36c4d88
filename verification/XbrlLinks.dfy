/** Linking labels and presentation arcs inside one XBRL document: the links of
    section 5.2 of XBRL 2.1, as far as they are embedded in the filing. */
module XbrlLinks {
  import opened Wrappers
  import opened Text
  import opened Sorting

  datatype Tag =
    | LabelLink | PresentationLink | Loc | LabelResource | LabelArc | PresentationArc | OtherTag(name: string)
  datatype Attribute = XlinkLabel | Href | Role | XlinkType | From | To | Order | OtherAttribute(name: string)
  datatype Element = Element(tag: Tag, attributes: map<Attribute, string>, text: string, children: seq<Element>)

  /** An absent attribute and an empty one are treated alike. */
  function Get(e: Element, a: Attribute): string {
    if a in e.attributes then e.attributes[a] else ""
  }

  /** All elements below, in document order. */
  function Below(children: seq<Element>): seq<Element> {
    if children == [] then []
    else [children[0]] + Below(children[0].children) + Below(children[1..])
  }

  function HasTag(tag: Tag): Element -> bool {
    (e: Element) => e.tag == tag
  }

  /** `root.findall(".//tag")`: the root itself is not searched. */
  function Links(root: Element, tag: Tag): seq<Element> {
    Filter(Below(root.children), HasTag(tag))
  }

  // ------------------------------------------------------------------ concept names

  /** `_concept_qname_from_href`. */
  function ConceptQname(href: string): Option<string> {
    var p := IndexOf(href, {'#'});
    if p == |href| then None
    else
      var fragment := Strip(href[p + 1..]);
      if fragment == "" then None
      else if ':' in fragment then Some(fragment)
      else
        var u := IndexOf(fragment, {'_'});
        if 0 < u && u + 1 < |fragment| then Some(fragment[..u] + ":" + fragment[u + 1..]) else Some(fragment)
  }

  // -------------------------------------------------------------------- definitions

  datatype Definition<V> = Definition(name: string, value: V)
  datatype Resource = Resource(role: string, text: string)

  /** What a locator defines: its label stands for a concept. */
  function LocatorOf(e: Element): Option<Definition<string>> {
    if e.tag != Loc || Get(e, XlinkLabel) == "" then None
    else
      match ConceptQname(Get(e, Href))
      case Some(q) => Some(Definition(Get(e, XlinkLabel), q))
      case None => None
  }

  /** What a label resource defines: its label stands for a role and a text. */
  function ResourceOf(e: Element): Option<Definition<Resource>> {
    if e.tag == LabelResource && Get(e, XlinkType) == "resource" && Get(e, XlinkLabel) != "" && Strip(e.text) != "" then
      Some(Definition(Get(e, XlinkLabel), Resource(Get(e, Role), Strip(e.text))))
    else None
  }

  /** The value a name has after all the definitions. */
  function Lookup<V>(es: seq<Element>, define: Element -> Option<Definition<V>>, name: string): Option<V>
    decreases |es|
  {
    if es == [] then None
    else
      var rest := es[..|es| - 1];
      match define(es[|es| - 1])
      case Some(Definition(n, v)) => if n == name then Some(v) else Lookup(rest, define, name)
      case None => Lookup(rest, define, name)
  }

  function Find<V>(m: map<string, V>, name: string): Option<V> {
    if name in m then Some(m[name]) else None
  }

  /** `m` holds what the elements define. */
  ghost predicate Holds<V(!new)>(m: map<string, V>, es: seq<Element>, define: Element -> Option<Definition<V>>) {
    forall name: string :: Find(m, name) == Lookup(es, define, name)
  }

  lemma HoldsStep<V(!new)>(m: map<string, V>, es: seq<Element>, i: nat, define: Element -> Option<Definition<V>>)
    requires i < |es| && Holds(m, es[..i], define)
    ensures define(es[i]).None? ==> Holds(m, es[..i + 1], define)
    ensures define(es[i]).Some? ==> Holds(m[define(es[i]).value.name := define(es[i]).value.value], es[..i + 1], define)
  {
    assert es[..i + 1][..i] == es[..i] && es[..i + 1][i] == es[i];
    match define(es[i]) {
      case None =>
      case Some(d) =>
        var m' := m[d.name := d.value];
        forall name: string
          ensures Find(m', name) == Lookup(es[..i + 1], define, name)
        {
          assert Find(m, name) == Lookup(es[..i], define, name);
        }
    }
  }

  /** The loop over the locators of a link. */
  method CollectLocators(link: Element) returns (concepts: map<string, string>)
    ensures Holds(concepts, link.children, LocatorOf)
  {
    concepts := map[];
    var es := link.children;
    hide ConceptQname, Holds;
    HoldsNothing(LocatorOf);
    for i := 0 to |es|
      invariant Holds(concepts, es[..i], LocatorOf)
    {
      HoldsStep(concepts, es, i, LocatorOf);
      var loc := es[i];
      if loc.tag != Loc {
        continue;
      }
      var name, href := Get(loc, XlinkLabel), Get(loc, Href);
      var concept := ConceptQname(href);
      if name != "" && concept.Some? {
        concepts := concepts[name := concept.value];
      }
    }
    assert es[..|es|] == es;
  }

  lemma HoldsNothing<V(!new)>(define: Element -> Option<Definition<V>>)
    ensures forall es: seq<Element> | es == [] :: Holds<V>(map[], es, define)
  {
  }

  /** The loop over the label resources of a link. */
  method CollectResources(link: Element) returns (resources: map<string, Resource>)
    ensures Holds(resources, link.children, ResourceOf)
  {
    resources := map[];
    var es := link.children;
    hide Holds, Strip;
    HoldsNothing(ResourceOf);
    for i := 0 to |es|
      invariant Holds(resources, es[..i], ResourceOf)
    {
      HoldsStep(resources, es, i, ResourceOf);
      var resource := es[i];
      if resource.tag != LabelResource || Get(resource, XlinkType) != "resource" {
        continue;
      }
      var name, role, text := Get(resource, XlinkLabel), Get(resource, Role), Strip(resource.text);
      if name != "" && text != "" {
        resources := resources[name := Resource(role, text)];
      }
    }
    assert es[..|es|] == es;
  }

  // --------------------------------------------------------------------------- arcs

  datatype Label = Label(concept: string, role: string, text: string)

  datatype Number = Finite(x: real) | NotFinite | NotANumber

  datatype Presentation = Presentation(role: string, parent: string, child: string, order: Number)

  datatype Error = ValueError

  /** The label an arc contributes, if both its ends resolve in its own link. */
  function LabelOf(link: Element, arc: Element): Option<Label> {
    if arc.tag != LabelArc || Get(arc, From) == "" || Get(arc, To) == "" then None
    else
      match (Lookup(link.children, LocatorOf, Get(arc, From)), Lookup(link.children, ResourceOf, Get(arc, To)))
      case (Some(concept), Some(resource)) => Some(Label(concept, resource.role, resource.text))
      case _ => None
  }

  /** A missing order counts as 0. */
  function OrderText(arc: Element): string {
    if Order in arc.attributes then arc.attributes[Order] else "0"
  }

  /** The presentation arc an arc contributes; an order that is no number drops it. */
  function PresentationOf(link: Element, arc: Element, float: string -> Number): Option<Presentation> {
    if arc.tag != PresentationArc || Get(arc, From) == "" || Get(arc, To) == "" then None
    else
      match (Lookup(link.children, LocatorOf, Get(arc, From)), Lookup(link.children, LocatorOf, Get(arc, To)))
      case (Some(parent), Some(child)) =>
        var order := float(OrderText(arc));
        if order.NotANumber? then None else Some(Presentation(Get(link, Role), parent, child, order))
      case _ => None
  }

  function Optional<T>(x: Option<T>): seq<T> {
    match x
    case Some(value) => [value]
    case None => []
  }

  /** What the arcs of a link contribute, in order. */
  function Joined<T>(link: Element, arcs: seq<Element>, join: (Element, Element) -> Option<T>): seq<T>
    decreases |arcs|
  {
    if arcs == [] then []
    else
      Joined(link, arcs[..|arcs| - 1], join) + Optional(join(link, arcs[|arcs| - 1]))
  }

  /** What the links contribute, in order. */
  function JoinedAll<T>(links: seq<Element>, join: (Element, Element) -> Option<T>): seq<T>
    decreases |links|
  {
    if links == [] then []
    else
      var last := links[|links| - 1];
      JoinedAll(links[..|links| - 1], join) + Joined(last, last.children, join)
  }

  function Labels(root: Element): seq<Label> {
    JoinedAll(Links(root, LabelLink), LabelOf)
  }

  /** What the constructor of a label refuses. */
  predicate LabelRefused(l: Label) {
    Strip(l.concept) == "" || Strip(l.role) == "" || Strip(l.text) == ""
  }

  /** What the constructor of a presentation arc refuses. */
  predicate PresentationRefused(p: Presentation) {
    Strip(p.role) == "" || Strip(p.parent) == "" || Strip(p.child) == "" || p.order.NotFinite?
  }

  predicate AnyRefused<T>(s: seq<T>, refused: T -> bool) {
    exists i | 0 <= i < |s| :: refused(s[i])
  }

  function OfConcept(concept: string): Label -> bool {
    (l: Label) => l.concept == concept
  }

  function Concepts(labels: seq<Label>): set<string> {
    set l <- labels :: l.concept
  }

  /** The labels of each concept, in order. */
  function Grouped(labels: seq<Label>): map<string, seq<Label>> {
    map c | c in Concepts(labels) :: Filter(labels, OfConcept(c))
  }

  lemma OfConceptStep(labels: seq<Label>, l: Label, c: string)
    ensures Filter(labels + [l], OfConcept(c)) == Filter(labels, OfConcept(c)) + if c == l.concept then [l] else []
  {
    FilterConcat(labels, [l], OfConcept(c));
    assert [l][1..] == [];
  }

  lemma GroupedStep(labels: seq<Label>, l: Label)
    ensures var g := Grouped(labels);
            Grouped(labels + [l]) == g[l.concept := (if l.concept in g then g[l.concept] else []) + [l]]
  {
    hide Concepts, Filter, OfConcept;
    ConceptsStep(labels, l);
    if l.concept !in Concepts(labels) {
      NoneOfConcept(labels, l.concept);
    }
    OfConceptStep(labels, l, l.concept);
    forall c | c in Concepts(labels) && c != l.concept
      ensures Filter(labels + [l], OfConcept(c)) == Filter(labels, OfConcept(c))
    {
      OfConceptStep(labels, l, c);
    }
  }

  lemma ConceptsStep(labels: seq<Label>, l: Label)
    ensures Concepts(labels + [l]) == Concepts(labels) + {l.concept}
  {
    forall c
      ensures c in Concepts(labels + [l]) <==> c in Concepts(labels) + {l.concept}
    {
      assert l in labels + [l];
      if c in Concepts(labels) {
        var k :| k in labels && k.concept == c;
        assert k in labels + [l];
      }
    }
  }

  lemma NoneOfConcept(labels: seq<Label>, c: string)
    requires c !in Concepts(labels)
    ensures Filter(labels, OfConcept(c)) == []
  {
    FilterAll(labels, OfConcept(c));
  }

  /** What one arc of a label link contributes, by the two dicts of that link. */
  method ResolveLabelArc(link: Element, arc: Element, concepts: map<string, string>, resources: map<string, Resource>)
    returns (r: Option<Label>)
    requires Holds(concepts, link.children, LocatorOf) && Holds(resources, link.children, ResourceOf)
    ensures r == LabelOf(link, arc)
  {
    hide LocatorOf, ResourceOf, Lookup;
    if arc.tag != LabelArc || Get(arc, From) == "" || Get(arc, To) == "" {
      return None;
    }
    var concept, resource := Find(concepts, Get(arc, From)), Find(resources, Get(arc, To));
    if concept.None? || resource.None? {
      return None;
    }
    r := Some(Label(concept.value, resource.value.role, resource.value.text));
  }

  lemma RefusedStep<T>(s: seq<T>, x: T, refused: T -> bool)
    ensures AnyRefused(s + [x], refused) <==> AnyRefused(s, refused) || refused(x)
  {
    var more := s + [x];
    assert more[|s|] == x;
    if k :| 0 <= k < |s| && refused(s[k]) {
      assert more[k] == s[k];
    }
  }

  lemma JoinedAfter<T>(before: seq<T>, link: Element, es: seq<Element>, i: nat, join: (Element, Element) -> Option<T>)
    requires i < |es|
    ensures var sofar, x := before + Joined(link, es[..i], join), join(link, es[i]);
            before + Joined(link, es[..i + 1], join) == if x.Some? then sofar + [x.value] else sofar
  {
    JoinedStep(link, es, i, join);
    Associative(before, Joined(link, es[..i], join), Optional(join(link, es[i])));
  }

  lemma JoinedNone<T>(before: seq<T>, link: Element, es: seq<Element>, join: (Element, Element) -> Option<T>)
    ensures before + Joined(link, es[..0], join) == before
  {
  }

  /** The loop over the arcs of one label link, filling the result. */
  method JoinLabelArcs(link: Element, ghost before: seq<Label>, result: map<string, seq<Label>>)
    returns (r: Option<map<string, seq<Label>>>)
    requires result == Grouped(before) && !AnyRefused(before, LabelRefused)
    ensures var all := before + Joined(link, link.children, LabelOf);
            r == if AnyRefused(all, LabelRefused) then None else Some(Grouped(all))
  {
    hide LabelRefused, AnyRefused, Grouped, Holds, LocatorOf, ResourceOf, LabelOf, Joined, Optional;
    var concepts := CollectLocators(link);
    var resources := CollectResources(link);
    var es := link.children;
    var filled := result;
    ghost var labels := before;
    JoinedNone(before, link, es, LabelOf);
    for i := 0 to |es|
      invariant labels == before + Joined(link, es[..i], LabelOf)
      invariant filled == Grouped(labels) && !AnyRefused(labels, LabelRefused)
    {
      JoinedAfter(before, link, es, i, LabelOf);
      var joined := ResolveLabelArc(link, es[i], concepts, resources);
      if joined.None? {
        continue;
      }
      var l := joined.value;
      RefusedStep(labels, l, LabelRefused);
      if LabelRefused(l) {
        RefusedStays(before, link, es, i + 1, LabelOf, LabelRefused);
        return None;
      }
      GroupedStep(labels, l);
      filled := filled[l.concept := (if l.concept in filled then filled[l.concept] else []) + [l]];
      labels := labels + [l];
    }
    assert es[..|es|] == es;
    r := Some(filled);
  }

  lemma RefusedBefore<T>(a: seq<T>, b: seq<T>, refused: T -> bool)
    requires AnyRefused(a, refused)
    ensures AnyRefused(a + b, refused)
  {
    var k :| 0 <= k < |a| && refused(a[k]);
    assert (a + b)[k] == a[k];
  }

  lemma RefusedStays<T>(before: seq<T>, link: Element, es: seq<Element>, i: nat, join: (Element, Element) -> Option<T>,
                        refused: T -> bool)
    requires i <= |es| && AnyRefused(before + Joined(link, es[..i], join), refused)
    ensures AnyRefused(before + Joined(link, es, join), refused)
  {
    hide AnyRefused, Joined;
    JoinedConcat(link, es[..i], es[i..], join);
    assert es == es[..i] + es[i..];
    RefusedBefore(before + Joined(link, es[..i], join), Joined(link, es[i..], join), refused);
    Associative(before, Joined(link, es[..i], join), Joined(link, es[i..], join));
  }

  lemma JoinedStep<T>(link: Element, es: seq<Element>, i: nat, join: (Element, Element) -> Option<T>)
    requires i < |es|
    ensures Joined(link, es[..i + 1], join) == Joined(link, es[..i], join) + Optional(join(link, es[i]))
  {
    assert es[..i + 1][..i] == es[..i];
  }

  lemma {:induction false} JoinedConcat<T>(link: Element, a: seq<Element>, b: seq<Element>,
                                           join: (Element, Element) -> Option<T>)
    ensures Joined(link, a + b, join) == Joined(link, a, join) + Joined(link, b, join)
    decreases |b|
  {
    if b == [] {
      assert a + b == a;
    } else {
      hide Joined, Optional;
      var n := |b| - 1;
      JoinedConcat(link, a, b[..n], join);
      JoinedLast(link, b, join);
      JoinedLast(link, a + b, join);
      assert (a + b)[..|a + b| - 1] == a + b[..n];
      Associative(Joined(link, a, join), Joined(link, b[..n], join), Optional(join(link, b[n])));
    }
  }

  lemma JoinedLast<T>(link: Element, es: seq<Element>, join: (Element, Element) -> Option<T>)
    requires es != []
    ensures Joined(link, es, join) == Joined(link, es[..|es| - 1], join) + Optional(join(link, es[|es| - 1]))
  {
  }

  lemma {:induction false} JoinedAllConcat<T>(a: seq<Element>, b: seq<Element>, join: (Element, Element) -> Option<T>)
    ensures JoinedAll(a + b, join) == JoinedAll(a, join) + JoinedAll(b, join)
    decreases |b|
  {
    if b == [] {
      assert a + b == a;
    } else {
      hide Joined, JoinedAll;
      var n := |b| - 1;
      JoinedAllConcat(a, b[..n], join);
      JoinedAllLast(b, join);
      JoinedAllLast(a + b, join);
      assert (a + b)[..|a + b| - 1] == a + b[..n];
      Associative(JoinedAll(a, join), JoinedAll(b[..n], join), Joined(b[n], b[n].children, join));
    }
  }

  lemma JoinedAllLast<T>(links: seq<Element>, join: (Element, Element) -> Option<T>)
    requires links != []
    ensures var last := links[|links| - 1];
            JoinedAll(links, join) == JoinedAll(links[..|links| - 1], join) + Joined(last, last.children, join)
  {
  }

  lemma RefusedGrows<T>(links: seq<Element>, i: nat, join: (Element, Element) -> Option<T>, refused: T -> bool)
    requires i <= |links| && AnyRefused(JoinedAll(links[..i], join), refused)
    ensures AnyRefused(JoinedAll(links, join), refused)
  {
    hide JoinedAll, AnyRefused;
    JoinedAllConcat(links[..i], links[i..], join);
    assert links == links[..i] + links[i..];
    RefusedBefore(JoinedAll(links[..i], join), JoinedAll(links[i..], join), refused);
  }

  lemma JoinedAllStep<T>(links: seq<Element>, i: nat, join: (Element, Element) -> Option<T>)
    requires i < |links|
    ensures JoinedAll(links[..i + 1], join) == JoinedAll(links[..i], join) + Joined(links[i], links[i].children, join)
  {
    assert links[..i + 1][..i] == links[..i];
  }

  /** `_parse_label_linkbases`. */
  method ParseLabelLinkbases(root: Element) returns (r: Result<map<string, seq<Label>>, Error>)
    ensures r == if AnyRefused(Labels(root), LabelRefused) then Err(ValueError) else Ok(Grouped(Labels(root)))
  {
    var links := Links(root, LabelLink);
    var result: map<string, seq<Label>> := map[];
    hide Links, LabelOf, LabelRefused, Joined;
    for i := 0 to |links|
      invariant result == Grouped(JoinedAll(links[..i], LabelOf))
      invariant !AnyRefused(JoinedAll(links[..i], LabelOf), LabelRefused)
    {
      JoinedAllStep(links, i, LabelOf);
      var joined := JoinLabelArcs(links[i], JoinedAll(links[..i], LabelOf), result);
      if joined.None? {
        RefusedGrows(links, i + 1, LabelOf, LabelRefused);
        return Err(ValueError);
      }
      result := joined.value;
    }
    assert links[..|links|] == links;
    r := Ok(result);
  }

  function PresentationJoin(float: string -> Number): (Element, Element) -> Option<Presentation> {
    (link: Element, arc: Element) => PresentationOf(link, arc, float)
  }

  function Presentations(root: Element, float: string -> Number): seq<Presentation> {
    JoinedAll(Links(root, PresentationLink), PresentationJoin(float))
  }

  method ResolvePresentationArc(link: Element, arc: Element, concepts: map<string, string>, float: string -> Number)
    returns (r: Option<Presentation>)
    requires Holds(concepts, link.children, LocatorOf)
    ensures r == PresentationOf(link, arc, float)
  {
    hide LocatorOf, Lookup;
    if arc.tag != PresentationArc || Get(arc, From) == "" || Get(arc, To) == "" {
      return None;
    }
    var parent, child := Find(concepts, Get(arc, From)), Find(concepts, Get(arc, To));
    if parent.None? || child.None? {
      return None;
    }
    var order := float(OrderText(arc));
    if order.NotANumber? {
      return None;
    }
    r := Some(Presentation(Get(link, Role), parent.value, child.value, order));
  }

  /** The loop over the arcs of one presentation link, appending to the result. */
  method JoinPresentationArcs(link: Element, before: seq<Presentation>, float: string -> Number)
    returns (r: Option<seq<Presentation>>)
    requires !AnyRefused(before, PresentationRefused)
    ensures var all := before + Joined(link, link.children, PresentationJoin(float));
            r == if AnyRefused(all, PresentationRefused) then None else Some(all)
  {
    hide PresentationRefused, AnyRefused, Holds, LocatorOf, PresentationOf, Joined, Optional;
    var concepts := CollectLocators(link);
    var es := link.children;
    var arcs := before;
    var join := PresentationJoin(float);
    JoinedNone(before, link, es, join);
    for i := 0 to |es|
      invariant arcs == before + Joined(link, es[..i], join)
      invariant !AnyRefused(arcs, PresentationRefused)
    {
      JoinedAfter(before, link, es, i, join);
      var joined := ResolvePresentationArc(link, es[i], concepts, float);
      if joined.None? {
        continue;
      }
      RefusedStep(arcs, joined.value, PresentationRefused);
      if PresentationRefused(joined.value) {
        RefusedStays(before, link, es, i + 1, join, PresentationRefused);
        return None;
      }
      arcs := arcs + [joined.value];
    }
    assert es[..|es|] == es;
    r := Some(arcs);
  }

  /** `_parse_presentation_linkbases`. */
  method ParsePresentationLinkbases(root: Element, float: string -> Number)
    returns (r: Result<seq<Presentation>, Error>)
    ensures var all := Presentations(root, float);
            r == if AnyRefused(all, PresentationRefused) then Err(ValueError) else Ok(all)
  {
    var links := Links(root, PresentationLink);
    var join := PresentationJoin(float);
    var arcs: seq<Presentation> := [];
    hide Links, PresentationJoin, PresentationRefused, Joined;
    for i := 0 to |links|
      invariant arcs == JoinedAll(links[..i], join)
      invariant !AnyRefused(arcs, PresentationRefused)
    {
      JoinedAllStep(links, i, join);
      var joined := JoinPresentationArcs(links[i], arcs, float);
      if joined.None? {
        RefusedGrows(links, i + 1, join, PresentationRefused);
        return Err(ValueError);
      }
      arcs := joined.value;
    }
    assert links[..|links|] == links;
    r := Ok(arcs);
  }

  // -------------------------------------------------------------- what links resolve

  /** Element `i` is the last that defines `name`, and defines it as `value`. */
  predicate LastDefines<V(==)>(es: seq<Element>, i: int, define: Element -> Option<Definition<V>>, name: string,
                               value: V) {
    && 0 <= i < |es| && define(es[i]) == Some(Definition(name, value))
    && forall j | i < j < |es| && define(es[j]).Some? :: define(es[j]).value.name != name
  }

  /** The last definition of a name wins. */
  lemma {:induction false} LastDefinitionWins<V(!new)>(es: seq<Element>, define: Element -> Option<Definition<V>>,
                                                       name: string, value: V)
    ensures Lookup(es, define, name) == Some(value)
            <==> exists i | 0 <= i < |es| :: LastDefines(es, i, define, name, value)
    decreases |es|
  {
    if es != [] {
      var n := |es| - 1;
      var d := define(es[n]);
      if d.Some? && d.value.name == name {
        assert Lookup(es, define, name) == Some(d.value.value);
        assert LastDefines(es, n, define, name, d.value.value);
      } else {
        LastDefinitionWins(es[..n], define, name, value);
        forall i | 0 <= i < |es|
          ensures LastDefines(es, i, define, name, value) <==> i < n && LastDefines(es[..n], i, define, name, value)
        {
        }
      }
    }
  }

  /** Element `i` is the locator in force for the arc's start and element `j` the
      resource in force for its end. */
  predicate LabelEnds(link: Element, arc: Element, l: Label, i: int, j: int) {
    && LastDefines(link.children, i, LocatorOf, Get(arc, From), l.concept)
    && LastDefines(link.children, j, ResourceOf, Get(arc, To), Resource(l.role, l.text))
  }

  /** A label arc gives a label exactly when its start names a resolvable locator
      and its end a usable resource of the same link. */
  lemma LabelIsScopedJoin(link: Element, arc: Element, l: Label)
    ensures LabelOf(link, arc) == Some(l)
            <==> && arc.tag == LabelArc && Get(arc, From) != "" && Get(arc, To) != ""
                 && exists i, j :: LabelEnds(link, arc, l, i, j)
  {
    LastDefinitionWins(link.children, LocatorOf, Get(arc, From), l.concept);
    LastDefinitionWins(link.children, ResourceOf, Get(arc, To), Resource(l.role, l.text));
    hide LocatorOf, ResourceOf, Lookup, LastDefines;
    var es := link.children;
    if i, j :| 0 <= i < |es| && 0 <= j < |es| && LastDefines(es, i, LocatorOf, Get(arc, From), l.concept)
               && LastDefines(es, j, ResourceOf, Get(arc, To), Resource(l.role, l.text)) {
      assert LabelEnds(link, arc, l, i, j);
    }
    if i, j :| LabelEnds(link, arc, l, i, j) {
      InRange(es, i, LocatorOf, Get(arc, From), l.concept);
      InRange(es, j, ResourceOf, Get(arc, To), Resource(l.role, l.text));
    }
  }

  lemma InRange<V>(es: seq<Element>, i: int, define: Element -> Option<Definition<V>>, name: string, value: V)
    requires LastDefines(es, i, define, name, value)
    ensures 0 <= i < |es|
  {
  }

  // ------------------------------------------------------- one label per resolvable arc

  /** An element of a link, that may be an arc. */
  datatype Arc = Arc(link: Element, arc: Element)

  function InLink(link: Element): Element -> Arc {
    (e: Element) => Arc(link, e)
  }

  /** The children of all links, in document order. */
  function ArcsOf(links: seq<Element>): seq<Arc>
    decreases |links|
  {
    if links == [] then []
    else
      var last := links[|links| - 1];
      ArcsOf(links[..|links| - 1]) + Map(last.children, InLink(last))
  }

  predicate Resolves<T>(a: Arc, join: (Element, Element) -> Option<T>, want: T -> bool) {
    var x := join(a.link, a.arc);
    x.Some? && want(x.value)
  }

  function ResolvesTo<T>(join: (Element, Element) -> Option<T>, want: T -> bool): Arc -> bool {
    (a: Arc) => Resolves(a, join, want)
  }

  /** The arcs and what they contribute correspond one to one, in order. */
  predicate Matched<T(==)>(arcs: seq<Arc>, xs: seq<T>, join: (Element, Element) -> Option<T>) {
    |arcs| == |xs| && forall k | 0 <= k < |arcs| :: join(arcs[k].link, arcs[k].arc) == Some(xs[k])
  }

  function Contributions<T>(arcs: seq<Arc>, join: (Element, Element) -> Option<T>): seq<T> {
    if arcs == [] then []
    else
      Optional(join(arcs[0].link, arcs[0].arc)) + Contributions(arcs[1..], join)
  }

  lemma {:induction false} ContributionsConcat<T>(a: seq<Arc>, b: seq<Arc>, join: (Element, Element) -> Option<T>)
    ensures Contributions(a + b, join) == Contributions(a, join) + Contributions(b, join)
  {
    if a == [] {
      assert a + b == b;
    } else {
      hide Optional;
      ContributionsConcat(a[1..], b, join);
      assert (a + b)[0] == a[0] && (a + b)[1..] == a[1..] + b;
      Associative(Optional(join(a[0].link, a[0].arc)), Contributions(a[1..], join), Contributions(b, join));
    }
  }

  lemma {:induction false} JoinedIsContributions<T>(link: Element, es: seq<Element>,
                                                    join: (Element, Element) -> Option<T>)
    ensures Joined(link, es, join) == Contributions(Map(es, InLink(link)), join)
    decreases |es|
  {
    if es != [] {
      var n := |es| - 1;
      JoinedIsContributions(link, es[..n], join);
      var last := [Arc(link, es[n])];
      assert Map(es, InLink(link)) == Map(es[..n], InLink(link)) + last;
      ContributionsConcat(Map(es[..n], InLink(link)), last, join);
      assert last[1..] == [];
    }
  }

  lemma {:induction false} JoinedAllIsContributions<T>(links: seq<Element>, join: (Element, Element) -> Option<T>)
    ensures JoinedAll(links, join) == Contributions(ArcsOf(links), join)
    decreases |links|
  {
    if links != [] {
      hide Joined, Contributions;
      var n := |links| - 1;
      JoinedAllIsContributions(links[..n], join);
      JoinedIsContributions(links[n], links[n].children, join);
      ContributionsConcat(ArcsOf(links[..n]), Map(links[n].children, InLink(links[n])), join);
    } else {
      assert Contributions([], join) == [];
    }
  }

  lemma {:induction false} WantedMatch<T>(arcs: seq<Arc>, join: (Element, Element) -> Option<T>, want: T -> bool)
    ensures Matched(Filter(arcs, ResolvesTo(join, want)), Filter(Contributions(arcs, join), want), join)
  {
    if arcs != [] {
      WantedMatch(arcs[1..], join, want);
      var x, rest := join(arcs[0].link, arcs[0].arc), Contributions(arcs[1..], join);
      if x.Some? {
        assert ([x.value] + rest)[0] == x.value && ([x.value] + rest)[1..] == rest;
      } else {
        assert [] + rest == rest;
      }
    }
  }

  /** The labels of a concept are, in document order, one for each label arc that
      resolves to that concept; a concept no arc resolves to has no entry. */
  lemma LabelsOfConcept(root: Element, c: string)
    ensures var arcs := Filter(ArcsOf(Links(root, LabelLink)), ResolvesTo(LabelOf, OfConcept(c)));
            var grouped := Grouped(Labels(root));
            && (c in grouped <==> arcs != [])
            && (c in grouped ==> Matched(arcs, grouped[c], LabelOf))
  {
    var links := Links(root, LabelLink);
    JoinedAllIsContributions(links, LabelOf);
    WantedMatch(ArcsOf(links), LabelOf, OfConcept(c));
    hide Links, LabelOf, ArcsOf, Contributions, JoinedAll;
    var labels := Labels(root);
    if c in Concepts(labels) {
      SomeOfConcept(labels, c);
    } else {
      NoneOfConcept(labels, c);
    }
  }

  lemma SomeOfConcept(labels: seq<Label>, c: string)
    requires c in Concepts(labels)
    ensures Filter(labels, OfConcept(c)) != []
  {
    var l :| l in labels && l.concept == c;
    FilterMembers(labels, OfConcept(c), l);
    assert multiset(Filter(labels, OfConcept(c)))[l] > 0;
  }

  /** The number of labels of all concepts together. */
  ghost function Total(m: map<string, seq<Label>>): nat {
    if m == map[] then 0
    else
      var c :| c in m;
      |m[c]| + Total(m - {c})
  }

  lemma {:induction false} TotalOf(m: map<string, seq<Label>>, c: string)
    requires c in m
    ensures Total(m) == |m[c]| + Total(m - {c})
  {
    var d :| d in m && Total(m) == |m[d]| + Total(m - {d});
    if d != c {
      TotalOf(m - {d}, c);
      TotalOf(m - {c}, d);
      assert m - {d} - {c} == m - {c} - {d};
    }
  }

  /** Adding one label adds one to the total. */
  lemma TotalStep(g: map<string, seq<Label>>, l: Label)
    ensures Total(g[l.concept := (if l.concept in g then g[l.concept] else []) + [l]]) == Total(g) + 1
  {
    hide Total;
    var more := g[l.concept := (if l.concept in g then g[l.concept] else []) + [l]];
    TotalOf(more, l.concept);
    assert more - {l.concept} == g - {l.concept};
    if l.concept in g {
      TotalOf(g, l.concept);
    } else {
      assert g - {l.concept} == g;
    }
  }

  lemma NothingGrouped()
    ensures Total(Grouped([])) == 0
  {
    assert Grouped([]) == map[];
  }

  lemma {:induction false} TotalGrouped(labels: seq<Label>)
    ensures Total(Grouped(labels)) == |labels|
    decreases |labels|
  {
    hide Grouped, Total;
    if labels == [] {
      NothingGrouped();
    } else {
      var n := |labels| - 1;
      TotalGrouped(labels[..n]);
      GroupedStep(labels[..n], labels[n]);
      TotalStep(Grouped(labels[..n]), labels[n]);
      assert labels[..n] + [labels[n]] == labels;
    }
  }

  function Any<T>(): T -> bool {
    (_: T) => true
  }

  /** In all there are as many labels as label arcs that resolve. */
  lemma TotalIsResolvableArcs(root: Element)
    ensures Total(Grouped(Labels(root))) == |Filter(ArcsOf(Links(root, LabelLink)), ResolvesTo(LabelOf, Any<Label>()))|
  {
    var links := Links(root, LabelLink);
    TotalGrouped(Labels(root));
    JoinedAllIsContributions(links, LabelOf);
    WantedMatch(ArcsOf(links), LabelOf, Any<Label>());
    FilterAll(Labels(root), Any<Label>());
  }

  /** Presentation arcs are, in document order, one for each that resolves. */
  lemma PresentationsAreResolvableArcs(root: Element, float: string -> Number)
    ensures var join := PresentationJoin(float);
            Matched(Filter(ArcsOf(Links(root, PresentationLink)), ResolvesTo(join, Any<Presentation>())),
                    Presentations(root, float), join)
  {
    var links := Links(root, PresentationLink);
    JoinedAllIsContributions(links, PresentationJoin(float));
    WantedMatch(ArcsOf(links), PresentationJoin(float), Any<Presentation>());
    FilterAll(Presentations(root, float), Any<Presentation>());
  }

  // ------------------------------------------------------------- documents side by side

  lemma BelowFirst(es: seq<Element>)
    requires es != []
    ensures Below(es) == [es[0]] + Below(es[0].children) + Below(es[1..])
  {
  }

  lemma {:induction false} BelowConcat(a: seq<Element>, b: seq<Element>)
    ensures Below(a + b) == Below(a) + Below(b)
    decreases |a|
  {
    if a == [] {
      assert a + b == b;
    } else {
      hide Below;
      BelowConcat(a[1..], b);
      BelowFirst(a);
      BelowFirst(a + b);
      assert (a + b)[0] == a[0] && (a + b)[1..] == a[1..] + b;
      Associative([a[0]] + Below(a[0].children), Below(a[1..]), Below(b));
    }
  }

  /** What one part of a document defines never reaches another part, when they
      share no link: the labels of both are the labels of each, in order. */
  lemma PartsDoNotMix(root: Element, a: seq<Element>, b: seq<Element>)
    requires root.children == a + b
    ensures Labels(root) == Labels(root.(children := a)) + Labels(root.(children := b))
  {
    BelowConcat(a, b);
    FilterConcat(Below(a), Below(b), HasTag(LabelLink));
    JoinedAllConcat(Links(root.(children := a), LabelLink), Links(root.(children := b), LabelLink), LabelOf);
  }

  // ----------------------------------------------------------------------- refused labels

  lemma StripIsNotBlank(t: string)
    ensures Strip(Strip(t)) == Strip(t)
  {
    StripResult(t);
    StripIdle(Strip(t));
  }

  lemma NotBlank(t: string, i: nat)
    requires i < |t| && !IsSpace(t[i])
    ensures Strip(t) != ""
  {
    StripResult(t);
  }

  /** A concept name is never blank. */
  lemma QnameNotBlank(href: string)
    ensures ConceptQname(href).Some? ==> Strip(ConceptQname(href).value) != ""
  {
    hide Strip, IndexOf;
    var p := IndexOf(href, {'#'});
    if p < |href| {
      var fragment := Strip(href[p + 1..]);
      StripIsNotBlank(href[p + 1..]);
      var u := IndexOf(fragment, {'_'});
      if 0 < u && u + 1 < |fragment| {
        NotBlank(fragment[..u] + ":" + fragment[u + 1..], u);
      }
    }
  }

  predicate BlankRole(l: Label) {
    Strip(l.role) == ""
  }

  lemma {:induction false} Definer<V>(es: seq<Element>, define: Element -> Option<Definition<V>>, name: string,
                                      value: V)
    returns (e: Element)
    requires Lookup(es, define, name) == Some(value)
    ensures define(e) == Some(Definition(name, value))
    decreases |es|
  {
    e := es[|es| - 1];
    if define(e).None? || define(e).value.name != name {
      e := Definer(es[..|es| - 1], define, name, value);
    }
  }

  lemma DefinedNotBlank(e: Element)
    ensures LocatorOf(e).Some? ==> Strip(LocatorOf(e).value.value) != ""
    ensures ResourceOf(e).Some? ==> Strip(ResourceOf(e).value.value.text) != ""
  {
    hide Strip, ConceptQname;
    QnameNotBlank(Get(e, Href));
    StripIsNotBlank(e.text);
  }

  lemma OnlyRoleIsRefused(link: Element, arc: Element)
    requires LabelOf(link, arc).Some?
    ensures LabelRefused(LabelOf(link, arc).value) <==> BlankRole(LabelOf(link, arc).value)
  {
    hide Lookup, Strip, LocatorOf, ResourceOf;
    var l := LabelOf(link, arc).value;
    var locator := Definer(link.children, LocatorOf, Get(arc, From), l.concept);
    var resource := Definer(link.children, ResourceOf, Get(arc, To), Resource(l.role, l.text));
    DefinedNotBlank(locator);
    DefinedNotBlank(resource);
  }

  /** Some element of the link contributes `x`. */
  predicate Contributes<T(==)>(link: Element, join: (Element, Element) -> Option<T>, x: T) {
    exists i | 0 <= i < |link.children| :: join(link, link.children[i]) == Some(x)
  }

  lemma {:induction false} JoinedMembers<T>(link: Element, es: seq<Element>, join: (Element, Element) -> Option<T>,
                                            x: T)
    ensures x in Joined(link, es, join) <==> exists i | 0 <= i < |es| :: join(link, es[i]) == Some(x)
    decreases |es|
  {
    if es != [] {
      var n := |es| - 1;
      JoinedMembers(link, es[..n], join, x);
      assert forall i | 0 <= i < n :: es[..n][i] == es[i];
    }
  }

  lemma {:induction false} JoinedAllMembers<T>(links: seq<Element>, join: (Element, Element) -> Option<T>, x: T)
    ensures x in JoinedAll(links, join) <==> exists k | 0 <= k < |links| :: Contributes(links[k], join, x)
    decreases |links|
  {
    if links != [] {
      hide Joined, JoinedAll, Contributes;
      var n := |links| - 1;
      JoinedAllMembers(links[..n], join, x);
      JoinedAllLast(links, join);
      JoinedIsContributes(links[n], join, x);
      assert forall k | 0 <= k < n :: links[..n][k] == links[k];
    }
  }

  lemma JoinedIsContributes<T>(link: Element, join: (Element, Element) -> Option<T>, x: T)
    ensures x in Joined(link, link.children, join) <==> Contributes(link, join, x)
  {
    JoinedMembers(link, link.children, join, x);
  }

  lemma AnyRefusedMember<T>(s: seq<T>, refused: T -> bool)
    ensures AnyRefused(s, refused) <==> exists x <- s :: refused(x)
  {
    if k :| 0 <= k < |s| && refused(s[k]) {
      assert s[k] in s;
    }
  }

  /** Some arc of some link resolves to a label without a role. */
  predicate ReachesBlankRole(links: seq<Element>) {
    exists k, i | 0 <= k < |links| && 0 <= i < |links[k].children| ::
      LabelOf(links[k], links[k].children[i]).Some? && BlankRole(LabelOf(links[k], links[k].children[i]).value)
  }

  /** Label parsing fails exactly when some arc that resolves reaches a label resource
      without a role. */
  lemma RefusedForTheRole(root: Element)
    ensures AnyRefused(Labels(root), LabelRefused) <==> ReachesBlankRole(Links(root, LabelLink))
  {
    hide Links, LabelOf, JoinedAll, LabelRefused, BlankRole, AnyRefused;
    var links, labels := Links(root, LabelLink), Labels(root);
    AnyRefusedMember(labels, LabelRefused);
    if l :| l in labels && LabelRefused(l) {
      JoinedAllMembers(links, LabelOf, l);
      var k :| 0 <= k < |links| && Contributes(links[k], LabelOf, l);
      var i :| 0 <= i < |links[k].children| && LabelOf(links[k], links[k].children[i]) == Some(l);
      OnlyRoleIsRefused(links[k], links[k].children[i]);
    }
    if k, i :| 0 <= k < |links| && 0 <= i < |links[k].children| && LabelOf(links[k], links[k].children[i]).Some?
               && BlankRole(LabelOf(links[k], links[k].children[i]).value) {
      var l := LabelOf(links[k], links[k].children[i]).value;
      OnlyRoleIsRefused(links[k], links[k].children[i]);
      assert Contributes(links[k], LabelOf, l);
      JoinedAllMembers(links, LabelOf, l);
    }
  }

  /** The link's own role is blank, or the order is not finite. */
  predicate BadPresentation(p: Presentation) {
    Strip(p.role) == "" || p.order.NotFinite?
  }

  lemma OnlyRoleOrOrderIsRefused(link: Element, arc: Element, float: string -> Number)
    requires PresentationOf(link, arc, float).Some?
    ensures var p := PresentationOf(link, arc, float).value;
            PresentationRefused(p) <==> BadPresentation(p)
  {
    hide Lookup, Strip, LocatorOf;
    var p := PresentationOf(link, arc, float).value;
    var parent := Definer(link.children, LocatorOf, Get(arc, From), p.parent);
    var child := Definer(link.children, LocatorOf, Get(arc, To), p.child);
    DefinedNotBlank(parent);
    DefinedNotBlank(child);
  }

  /** Some arc of some link resolves, and its link has no role or its order is a
      number that is not finite. */
  predicate ReachesBadPresentation(links: seq<Element>, float: string -> Number) {
    exists k, i | 0 <= k < |links| && 0 <= i < |links[k].children| ::
      && PresentationOf(links[k], links[k].children[i], float).Some?
      && BadPresentation(PresentationOf(links[k], links[k].children[i], float).value)
  }

  /** Presentation parsing fails exactly then: an order that is no number at all only
      drops its arc. */
  lemma RefusedForRoleOrOrder(root: Element, float: string -> Number)
    ensures AnyRefused(Presentations(root, float), PresentationRefused)
            <==> ReachesBadPresentation(Links(root, PresentationLink), float)
  {
    hide Links, PresentationOf, JoinedAll, PresentationRefused, BadPresentation, AnyRefused;
    var links, join, all := Links(root, PresentationLink), PresentationJoin(float), Presentations(root, float);
    AnyRefusedMember(all, PresentationRefused);
    if p :| p in all && PresentationRefused(p) {
      JoinedAllMembers(links, join, p);
      var k :| 0 <= k < |links| && Contributes(links[k], join, p);
      var i :| 0 <= i < |links[k].children| && join(links[k], links[k].children[i]) == Some(p);
      OnlyRoleOrOrderIsRefused(links[k], links[k].children[i], float);
    }
    if k, i :| 0 <= k < |links| && 0 <= i < |links[k].children|
               && PresentationOf(links[k], links[k].children[i], float).Some?
               && BadPresentation(PresentationOf(links[k], links[k].children[i], float).value) {
      var p := PresentationOf(links[k], links[k].children[i], float).value;
      OnlyRoleOrOrderIsRefused(links[k], links[k].children[i], float);
      assert join(links[k], links[k].children[i]) == Some(p);
      assert Contributes(links[k], join, p);
      JoinedAllMembers(links, join, p);
    }
  }

  // ------------------------------------------------------------------- names in hrefs

  lemma FragmentOf(document: string, fragment: string)
    requires '#' !in document && fragment != "" && Stripped(fragment)
    ensures var href := document + ("#" + fragment);
            && IndexOf(href, {'#'}) == |document| && |document| < |href| && Strip(href[|document| + 1..]) == fragment
  {
    FirstAfter(document, "#" + fragment, {'#'});
    assert ("#" + fragment)[1..] == fragment;
    StripIdle(fragment);
  }

  /** The two usual ways to point at a concept give the same name. */
  lemma BothFormsAgree(document: string, prefix: string, local: string)
    requires '#' !in document && prefix != "" && local != ""
    requires ':' !in prefix && ':' !in local && '_' !in prefix
    requires !IsSpace(prefix[0]) && !IsSpace(local[|local| - 1])
    ensures ConceptQname(document + ("#" + (prefix + ("_" + local)))) == Some(prefix + ":" + local)
    ensures ConceptQname(document + ("#" + (prefix + (":" + local)))) == Some(prefix + ":" + local)
  {
    hide Strip, IndexOf, IsSpace;
    var underscored, coloned := prefix + ("_" + local), prefix + (":" + local);
    FragmentOf(document, underscored);
    FragmentOf(document, coloned);
    FirstAfter(prefix, "_" + local, {'_'});
    assert ("_" + local)[1..] == local;
    assert coloned[|prefix|] == ':';
    assert coloned == prefix + ":" + local;
  }

  /** An href without a fragment names nothing. */
  lemma NoFragment(href: string)
    ensures '#' !in href ==> ConceptQname(href) == None
  {
    if '#' !in href {
      FirstAt(href, {'#'}, |href|);
    }
  }

  /** What any fragment names: nothing when it is blank; itself when it has a colon or
      cannot be split; and otherwise the parts around its first underscore. */
  lemma FragmentNames(document: string, rest: string)
    requires '#' !in document
    ensures var fragment, name := Strip(rest), ConceptQname(document + ("#" + rest));
            && (fragment == "" ==> name == None)
            && (fragment != "" && (':' in fragment || '_' !in fragment) ==> name == Some(fragment))
            && (forall prefix, local | fragment == prefix + ("_" + local) && '_' !in prefix && ':' !in fragment ::
                  name == if prefix != "" && local != "" then Some(prefix + ":" + local) else Some(fragment))
  {
    hide Strip, IndexOf;
    FirstAfter(document, "#" + rest, {'#'});
    assert ("#" + rest)[1..] == rest;
    var fragment := Strip(rest);
    if '_' !in fragment {
      FirstAt(fragment, {'_'}, |fragment|);
    }
    forall prefix, local | fragment == prefix + ("_" + local) && '_' !in prefix && ':' !in fragment
      ensures ConceptQname(document + ("#" + rest))
              == if prefix != "" && local != "" then Some(prefix + ":" + local) else Some(fragment)
    {
      FirstAfter(prefix, "_" + local, {'_'});
      assert ("_" + local)[1..] == local;
    }
  }

  // -------------------------------------------------------------- what elements define

  /** A locator, read off its attributes. */
  lemma LocatorIs(e: Element, name: string, concept: string)
    ensures LocatorOf(e) == Some(Definition(name, concept))
            <==> && e.tag == Loc && name != "" && XlinkLabel in e.attributes && e.attributes[XlinkLabel] == name
                 && Href in e.attributes && ConceptQname(e.attributes[Href]) == Some(concept)
  {
    NoFragment("");
    hide ConceptQname;
  }

  /** A label resource, read off its attributes; a missing role reads as empty. */
  lemma ResourceIs(e: Element, name: string, role: string, text: string)
    ensures ResourceOf(e) == Some(Definition(name, Resource(role, text)))
            <==> && e.tag == LabelResource && name != ""
                 && XlinkLabel in e.attributes && e.attributes[XlinkLabel] == name
                 && XlinkType in e.attributes && e.attributes[XlinkType] == "resource"
                 && (if Role in e.attributes then e.attributes[Role] == role else role == "")
                 && text == Strip(e.text) && text != ""
  {
    assert "resource" != "";
    hide Strip;
  }

  /** A presentation arc gives an entry exactly when both its ends name locators of its
      own link, the last of each name counting, and its order reads as a number. The
      start is the parent and the end the child; the role is the link's. */
  lemma PresentationIsScopedJoin(link: Element, arc: Element, float: string -> Number, p: Presentation)
    ensures PresentationOf(link, arc, float) == Some(p)
            <==> && arc.tag == PresentationArc && Get(arc, From) != "" && Get(arc, To) != ""
                 && (exists i | 0 <= i < |link.children| ::
                       LastDefines(link.children, i, LocatorOf, Get(arc, From), p.parent))
                 && (exists j | 0 <= j < |link.children| ::
                       LastDefines(link.children, j, LocatorOf, Get(arc, To), p.child))
                 && p.order == float(if Order in arc.attributes then arc.attributes[Order] else "0")
                 && !p.order.NotANumber?
                 && p.role == (if Role in link.attributes then link.attributes[Role] else "")
  {
    LastDefinitionWins(link.children, LocatorOf, Get(arc, From), p.parent);
    LastDefinitionWins(link.children, LocatorOf, Get(arc, To), p.child);
    hide LocatorOf, Lookup, LastDefines;
  }
}
