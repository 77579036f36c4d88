/** Whole documents: which links are searched and in which order their arcs count,
    told by paths of child indices; and documents that fail. */
module XbrlDocuments {
  import opened Wrappers
  import opened Text
  import opened Sorting
  import opened XbrlLinks

  /** The child indices on the way from the root. */
  type Path = seq<nat>

  /** The element at a path; the empty path is the element itself. */
  function At(e: Element, path: Path): Option<Element>
    decreases |path|
  {
    if path == [] then Some(e)
    else if path[0] < |e.children| then At(e.children[path[0]], path[1..])
    else None
  }

  /** Lexicographic order: an element precedes what is below it, and what is below or
      after a later sibling. */
  predicate Precedes(p: Path, q: Path)
    decreases |p|
  {
    q != [] && (p == [] || p[0] < q[0] || (p[0] == q[0] && Precedes(p[1..], q[1..])))
  }

  predicate Ascending(ps: seq<Path>) {
    forall i, j | 0 <= i < j < |ps| :: Precedes(ps[i], ps[j])
  }

  function Under(i: nat): Path -> Path {
    (p: Path) => [i] + p
  }

  /** The paths of all elements below, from child `i` on, in the order they are visited. */
  function PathsBelow(children: seq<Element>, i: nat): seq<Path>
    requires i <= |children|
    decreases children, |children| - i
  {
    if i == |children| then []
    else [[i]] + Map(PathsBelow(children[i].children, 0), Under(i)) + PathsBelow(children, i + 1)
  }

  predicate Leads(children: seq<Element>, i: nat, p: Path) {
    p != [] && i <= p[0] < |children| && At(children[p[0]], p[1..]).Some?
  }

  lemma UnderMember(ps: seq<Path>, i: nat, p: Path)
    ensures p in Map(ps, Under(i)) <==> p != [] && p[0] == i && p[1..] in ps
  {
    if p in Map(ps, Under(i)) {
      var k :| 0 <= k < |ps| && Map(ps, Under(i))[k] == p;
      assert p == [i] + ps[k] && p[1..] == ps[k];
    }
    if p != [] && p[0] == i && p[1..] in ps {
      var k :| 0 <= k < |ps| && ps[k] == p[1..];
      assert p == [i] + p[1..];
      assert Map(ps, Under(i))[k] == p;
    }
  }

  /** Every path that leads somewhere is visited, and no other. */
  lemma {:induction false} AllPathsVisited(children: seq<Element>, i: nat, p: Path)
    requires i <= |children|
    ensures p in PathsBelow(children, i) <==> Leads(children, i, p)
    decreases children, |children| - i
  {
    if i < |children| {
      AllPathsVisited(children, i + 1, p);
      var inner := PathsBelow(children[i].children, 0);
      UnderMember(inner, i, p);
      if p != [] && p[0] == i {
        AllPathsVisited(children[i].children, 0, p[1..]);
        if p[1..] != [] {
          assert At(children[i], p[1..]) == if p[1..][0] < |children[i].children|
                                            then At(children[i].children[p[1..][0]], p[1..][1..]) else None;
        } else {
          assert p == [i];
        }
      }
    }
  }

  lemma PrecedesUnder(i: nat, p: Path, q: Path)
    ensures Precedes([i] + p, [i] + q) <==> Precedes(p, q)
  {
    assert ([i] + p)[1..] == p && ([i] + q)[1..] == q;
  }

  lemma {:induction false} VisitedInOrder(children: seq<Element>, i: nat)
    requires i <= |children|
    ensures Ascending(PathsBelow(children, i))
    decreases children, |children| - i
  {
    if i < |children| {
      var inner, later := PathsBelow(children[i].children, 0), PathsBelow(children, i + 1);
      VisitedInOrder(children[i].children, 0);
      VisitedInOrder(children, i + 1);
      forall p | p in inner
        ensures p != []
      {
        AllPathsVisited(children[i].children, 0, p);
      }
      forall p | p in later
        ensures p != [] && p[0] > i
      {
        AllPathsVisited(children, i + 1, p);
      }
      hide PathsBelow;
      JoinAscending(i, inner, later);
    }
  }

  lemma PrecedesFirst(p: Path, q: Path)
    requires p != [] && q != [] && p[0] < q[0]
    ensures Precedes(p, q)
  {
  }

  lemma PrecedesBelow(i: nat, q: Path)
    requires q != []
    ensures Precedes([i], [i] + q)
  {
    assert ([i] + q)[1..] == q && [i][1..] == [];
  }

  lemma ConcatAscending(a: seq<Path>, b: seq<Path>)
    requires Ascending(a) && Ascending(b)
    requires forall i, j | 0 <= i < |a| && 0 <= j < |b| :: Precedes(a[i], b[j])
    ensures Ascending(a + b)
  {
    hide Precedes;
  }

  lemma UnderAscending(i: nat, inner: seq<Path>)
    requires Ascending(inner) && forall k | 0 <= k < |inner| :: inner[k] != []
    ensures Ascending([[i]] + Map(inner, Under(i)))
  {
    hide Precedes;
    var under := Map(inner, Under(i));
    forall a, b | 0 <= a < b < |under|
      ensures Precedes(under[a], under[b])
    {
      PrecedesUnder(i, inner[a], inner[b]);
    }
    forall b | 0 <= b < |under|
      ensures Precedes([i], under[b])
    {
      PrecedesBelow(i, inner[b]);
    }
    ConcatAscending([[i]], under);
  }

  lemma JoinAscending(i: nat, inner: seq<Path>, later: seq<Path>)
    requires Ascending(inner) && Ascending(later)
    requires (forall p <- inner :: p != []) && (forall p <- later :: p != [] && p[0] > i)
    ensures Ascending([[i]] + Map(inner, Under(i)) + later)
  {
    hide Precedes;
    assert forall k | 0 <= k < |inner| :: inner[k] in inner;
    UnderAscending(i, inner);
    hide Ascending;
    var first := [[i]] + Map(inner, Under(i));
    forall a, b | 0 <= a < |first| && 0 <= b < |later|
      ensures Precedes(first[a], later[b])
    {
      assert later[b] in later;
      assert first[a][0] == i;
      PrecedesFirst(first[a], later[b]);
    }
    ConcatAscending(first, later);
  }

  function ElementAt(children: seq<Element>): Path -> Option<Element> {
    (p: Path) => if p != [] && p[0] < |children| then At(children[p[0]], p[1..]) else None
  }

  function Found(): Element -> Option<Element> {
    (e: Element) => Some(e)
  }

  lemma {:induction false} VisitedElements(children: seq<Element>, i: nat)
    requires i <= |children|
    ensures Map(PathsBelow(children, i), ElementAt(children)) == Map(Below(children[i..]), Found())
    decreases children, |children| - i
  {
    if i < |children| {
      var inner, later := PathsBelow(children[i].children, 0), PathsBelow(children, i + 1);
      VisitedElements(children[i].children, 0);
      VisitedElements(children, i + 1);
      assert children[i].children[0..] == children[i].children;
      assert children[i..][0] == children[i] && children[i..][1..] == children[i + 1..];
      BelowFirst(children[i..]);
      VisitedPaths(children[i].children, 0);
      hide Below, PathsBelow, Map, Under, ElementAt, Found;
      UnderElements(children, i, inner);
      var under := Map(inner, Under(i));
      MapConcat([[i]] + under, later, ElementAt(children));
      MapConcat([[i]], under, ElementAt(children));
      var self, below, after := [children[i]], Below(children[i].children), Below(children[i + 1..]);
      MapConcat(self + below, after, Found());
      MapConcat(self, below, Found());
      ChildItself(children, i);
    } else {
      assert children[i..] == [];
    }
  }

  lemma VisitedPaths(children: seq<Element>, i: nat)
    requires i <= |children|
    ensures forall p <- PathsBelow(children, i) :: p != []
  {
    forall p <- PathsBelow(children, i)
      ensures p != []
    {
      AllPathsVisited(children, i, p);
    }
  }

  lemma ChildItself(children: seq<Element>, i: nat)
    requires i < |children|
    ensures Map([[i]], ElementAt(children)) == Map([children[i]], Found())
  {
  }

  lemma UnderElements(children: seq<Element>, i: nat, inner: seq<Path>)
    requires i < |children| && forall p <- inner :: p != []
    ensures Map(Map(inner, Under(i)), ElementAt(children)) == Map(inner, ElementAt(children[i].children))
  {
    forall k | 0 <= k < |inner|
      ensures Map(Map(inner, Under(i)), ElementAt(children))[k] == Map(inner, ElementAt(children[i].children))[k]
    {
      assert inner[k] in inner;
      assert ([i] + inner[k])[1..] == inner[k];
    }
  }

  // --------------------------------------------------------------- failing documents

  /** `links` are all elements with the tag, at any depth below the root, and `ps` are
      their paths, in lexicographic order. */
  ghost predicate InDocumentOrder(root: Element, tag: Tag, ps: seq<Path>, links: seq<Element>) {
    && |ps| == |links| && Ascending(ps)
    && (forall k | 0 <= k < |ps| :: At(root, ps[k]) == Some(links[k]))
    && forall p: Path :: p in ps <==> p != [] && At(root, p).Some? && At(root, p).value.tag == tag
  }

  function LeadsTo(children: seq<Element>, tag: Tag): Path -> bool {
    (p: Path) => ElementAt(children)(p).Some? && ElementAt(children)(p).value.tag == tag
  }

  function SomeTag(tag: Tag): Option<Element> -> bool {
    (e: Option<Element>) => e.Some? && e.value.tag == tag
  }

  function Itself(): Path -> Path {
    (p: Path) => p
  }

  /** The links that are searched, by their paths. */
  lemma LinksByPath(root: Element, tag: Tag) returns (ps: seq<Path>)
    ensures InDocumentOrder(root, tag, ps, Links(root, tag))
  {
    hide PathsBelow, Below, Ascending, Filter;
    var children := root.children;
    var all, below := PathsBelow(children, 0), Below(children);
    ps := Filter(all, LeadsTo(children, tag));
    assert children[0..] == children;
    VisitedElements(children, 0);
    FilterMap(all, ElementAt(children), LeadsTo(children, tag), SomeTag(tag));
    FilterMap(below, Found(), HasTag(tag), SomeTag(tag));
    var links := Links(root, tag);
    assert Map(ps, ElementAt(children)) == Map(links, Found());
    forall p: Path
      ensures p in ps <==> p != [] && At(root, p).Some? && At(root, p).value.tag == tag
    {
      FilterMembers(all, LeadsTo(children, tag), p);
      AllPathsVisited(children, 0, p);
    }
    forall k | 0 <= k < |ps|
      ensures At(root, ps[k]) == Some(links[k])
    {
      assert Map(ps, ElementAt(children))[k] == Map(links, Found())[k];
    }
    PartsAscend(children, tag);
  }

  lemma PartsAscend(children: seq<Element>, tag: Tag)
    ensures Ascending(Filter(PathsBelow(children, 0), LeadsTo(children, tag)))
  {
    hide PathsBelow, Filter, Precedes;
    VisitedInOrder(children, 0);
    FilterSorted(PathsBelow(children, 0), LeadsTo(children, tag), Itself(), Precedes);
  }

  // ------------------------------------------------------------- what contributes where

  /** A child of the element at a path. */
  datatype Place = Place(link: Path, child: nat)

  predicate Before(a: Place, b: Place) {
    Precedes(a.link, b.link) || (a.link == b.link && a.child < b.child)
  }

  predicate InOrder(places: seq<Place>) {
    forall i, j | 0 <= i < j < |places| :: Before(places[i], places[j])
  }

  /** `x` is what the arc at a place contributes to its link. */
  predicate ContributesAt<T(==)>(root: Element, place: Place, join: (Element, Element) -> Option<T>, x: T) {
    var link := At(root, place.link);
    link.Some? && place.child < |link.value.children| && join(link.value, link.value.children[place.child]) == Some(x)
  }

  /** The place is a child, with something to contribute, of a link at any depth. */
  predicate Counts<T>(root: Element, tag: Tag, place: Place, join: (Element, Element) -> Option<T>) {
    var link := At(root, place.link);
    && place.link != [] && link.Some? && link.value.tag == tag && place.child < |link.value.children|
    && join(link.value, link.value.children[place.child]).Some?
  }

  /** `xs` are the contributions of exactly the places that count, one each, in the order
      of the places. */
  ghost predicate ContributedBy<T(!new)>(root: Element, tag: Tag, join: (Element, Element) -> Option<T>,
                                         places: seq<Place>, xs: seq<T>) {
    && |places| == |xs| && InOrder(places)
    && (forall k | 0 <= k < |places| :: ContributesAt(root, places[k], join, xs[k]))
    && forall place: Place :: place in places <==> Counts(root, tag, place, join)
  }

  /** The places of one link, up to some child. */
  predicate OfLink<T(==)>(path: Path, link: Element, n: nat, join: (Element, Element) -> Option<T>, places: seq<Place>,
                          xs: seq<T>)
    requires n <= |link.children|
  {
    && |places| == |xs| && InOrder(places)
    && (forall k | 0 <= k < |places| ::
          places[k].link == path && places[k].child < n && join(link, link.children[places[k].child]) == Some(xs[k]))
    && forall i | 0 <= i < n && join(link, link.children[i]).Some? :: Place(path, i) in places
  }

  lemma {:induction false} PlacesOfLink<T>(path: Path, link: Element, n: nat, join: (Element, Element) -> Option<T>)
    returns (places: seq<Place>)
    requires n <= |link.children|
    ensures OfLink(path, link, n, join, places, Joined(link, link.children[..n], join))
  {
    hide Joined, Optional, OfLink;
    if n == 0 {
      places := [];
      NoChild(path, link, join);
    } else {
      var init := PlacesOfLink(path, link, n - 1, join);
      JoinedNext(link, n, join);
      places := if join(link, link.children[n - 1]).Some? then init + [Place(path, n - 1)] else init;
      NextChild(path, link, n, join, init, Joined(link, link.children[..n - 1], join));
    }
  }

  lemma NoChild<T>(path: Path, link: Element, join: (Element, Element) -> Option<T>)
    ensures OfLink(path, link, 0, join, [], Joined(link, link.children[..0], join))
  {
  }

  lemma JoinedNext<T>(link: Element, n: nat, join: (Element, Element) -> Option<T>)
    requires 0 < n <= |link.children|
    ensures var x, xs := join(link, link.children[n - 1]), Joined(link, link.children[..n - 1], join);
            Joined(link, link.children[..n], join) == if x.Some? then xs + [x.value] else xs
  {
    JoinedStep(link, link.children, n - 1, join);
  }

  lemma NextChild<T>(path: Path, link: Element, n: nat, join: (Element, Element) -> Option<T>, init: seq<Place>,
                     xs: seq<T>)
    requires 0 < n <= |link.children| && OfLink(path, link, n - 1, join, init, xs)
    ensures var x := join(link, link.children[n - 1]);
            if x.Some? then OfLink(path, link, n, join, init + [Place(path, n - 1)], xs + [x.value])
            else OfLink(path, link, n, join, init, xs)
  {
    hide Precedes;
  }

  /** The places of the first links. */
  predicate OfLinks<T(==)>(root: Element, ps: seq<Path>, join: (Element, Element) -> Option<T>, places: seq<Place>,
                           xs: seq<T>) {
    && |places| == |xs| && InOrder(places)
    && (forall k | 0 <= k < |places| :: places[k].link in ps && ContributesAt(root, places[k], join, xs[k]))
    && forall p, i: nat | p in ps && At(root, p).Some? && i < |At(root, p).value.children|
                          && join(At(root, p).value, At(root, p).value.children[i]).Some? :: Place(p, i) in places
  }

  lemma {:induction false} PlacesOfLinks<T>(root: Element, ps: seq<Path>, links: seq<Element>, n: nat,
                                            join: (Element, Element) -> Option<T>)
    returns (places: seq<Place>)
    requires n <= |ps| == |links| && Ascending(ps) && forall k | 0 <= k < |ps| :: At(root, ps[k]) == Some(links[k])
    ensures OfLinks(root, ps[..n], join, places, JoinedAll(links[..n], join))
  {
    if n == 0 {
      places := [];
    } else {
      var before := PlacesOfLinks(root, ps, links, n - 1, join);
      var link, path := links[n - 1], ps[n - 1];
      var own := PlacesOfLink(path, link, |link.children|, join);
      assert link.children[..|link.children|] == link.children;
      JoinedAllStep(links, n - 1, join);
      places := before + own;
      hide Joined, JoinedAll;
      AppendLink(root, ps, links, n, join, before, JoinedAll(links[..n - 1], join), own,
          Joined(link, link.children, join));
    }
  }

  predicate AllPrecede(ps: seq<Path>, q: Path) {
    forall k | 0 <= k < |ps| :: Precedes(ps[k], q)
  }

  lemma BeforeLast(ps: seq<Path>, n: nat)
    requires 0 < n <= |ps| && Ascending(ps)
    ensures AllPrecede(ps[..n - 1], ps[n - 1])
  {
  }

  lemma AppendLink<T>(root: Element, ps: seq<Path>, links: seq<Element>, n: nat, join: (Element, Element) -> Option<T>,
                      before: seq<Place>, xs: seq<T>, own: seq<Place>, ys: seq<T>)
    requires 0 < n <= |ps| == |links| && Ascending(ps) && At(root, ps[n - 1]) == Some(links[n - 1])
    requires OfLinks(root, ps[..n - 1], join, before, xs)
    requires OfLink(ps[n - 1], links[n - 1], |links[n - 1].children|, join, own, ys)
    ensures OfLinks(root, ps[..n], join, before + own, xs + ys)
  {
    hide At, Precedes;
    var places, all := before + own, xs + ys;
    assert ps[..n] == ps[..n - 1] + [ps[n - 1]];
    BeforeLast(ps, n);
    forall k | 0 <= k < |places|
      ensures places[k].link in ps[..n] && ContributesAt(root, places[k], join, all[k])
    {
      if k < |before| {
        assert places[k] == before[k] && all[k] == xs[k];
      } else {
        assert places[k] == own[k - |before|] && all[k] == ys[k - |before|];
      }
    }
    forall i, j | 0 <= i < j < |places|
      ensures Before(places[i], places[j])
    {
      if j < |before| {
        assert places[i] == before[i] && places[j] == before[j];
      } else if i >= |before| {
        assert places[i] == own[i - |before|] && places[j] == own[j - |before|];
      } else {
        assert places[i] == before[i] && places[j] == own[j - |before|];
        var earlier := ps[..n - 1];
        var k :| 0 <= k < |earlier| && earlier[k] == places[i].link;
      }
    }
  }

  /** What the links of a document contribute. */
  lemma LinksContribute<T(!new)>(root: Element, tag: Tag, join: (Element, Element) -> Option<T>)
    returns (places: seq<Place>)
    ensures ContributedBy(root, tag, join, places, JoinedAll(Links(root, tag), join))
  {
    var ps := LinksByPath(root, tag);
    var links := Links(root, tag);
    hide Links, JoinedAll, Ascending, InOrder;
    places := PlacesOfLinks(root, ps, links, |ps|, join);
    assert ps[..|ps|] == ps && links[..|ps|] == links;
    forall place: Place
      ensures place in places <==> Counts(root, tag, place, join)
    {
      if place in places {
        var k :| 0 <= k < |places| && places[k] == place;
      }
      if Counts(root, tag, place, join) {
        assert Place(place.link, place.child) in places;
      }
    }
  }

  /** The labels of a document: one for each arc that resolves inside its own label link,
      wherever below the root that link is, and nothing else; links count in the order
      of their paths and arcs in the order they stand in their link. */
  lemma LabelsByPlace(root: Element) returns (places: seq<Place>)
    ensures ContributedBy(root, LabelLink, LabelOf, places, Labels(root))
  {
    places := LinksContribute(root, LabelLink, LabelOf);
  }

  /** The presentation arcs of a document, likewise. */
  lemma PresentationsByPlace(root: Element, float: string -> Number) returns (places: seq<Place>)
    ensures ContributedBy(root, PresentationLink, PresentationJoin(float), places, Presentations(root, float))
  {
    places := LinksContribute(root, PresentationLink, PresentationJoin(float));
  }

  // --------------------------------------------------------------- failing documents

  function Locator(name: string, concept: string): Element {
    Element(Loc, map[XlinkLabel := name, Href := "#" + concept], "", [])
  }

  lemma ColonIsKept(concept: string)
    requires concept != "" && ':' in concept && Stripped(concept)
    ensures ConceptQname("#" + concept) == Some(concept)
  {
    hide Strip, IndexOf, IsSpace;
    FragmentOf("", concept);
    assert "" + ("#" + concept) == "#" + concept;
  }

  lemma LocatorDefines(name: string, concept: string)
    requires name != "" && concept != "" && ':' in concept && Stripped(concept)
    ensures LocatorOf(Locator(name, concept)) == Some(Definition(name, concept))
  {
    hide ConceptQname, Stripped;
    ColonIsKept(concept);
  }

  lemma ExampleConcepts()
    ensures ':' in "a:A" && Stripped("a:A") && ':' in "b:B" && Stripped("b:B")
  {
    assert "a:A"[1] == ':' && "b:B"[1] == ':';
  }

  /** A label resource that leaves its role out. */
  const PLAIN_LABEL: Element :=
    Element(LabelResource, map[XlinkLabel := "text", XlinkType := "resource"], "Assets", [])

  const LABEL_ARC: Element := Element(LabelArc, map[From := "loc", To := "text"], "", [])

  const LABEL_LINK: Element := Element(LabelLink, map[], "", [Locator("loc", "a:A"), PLAIN_LABEL, LABEL_ARC])

  lemma PlainLabelResolves()
    ensures LabelOf(LABEL_LINK, LABEL_ARC) == Some(Label("a:A", "", "Assets"))
  {
    hide Strip, ConceptQname, LastDefines;
    ExampleConcepts();
    LocatorDefines("loc", "a:A");
    StripIdle("Assets");
    var es := LABEL_LINK.children;
    assert LastDefines(es, 0, LocatorOf, "loc", "a:A") by { LastHere(es, 0, LocatorOf, "loc", "a:A"); }
    assert LastDefines(es, 1, ResourceOf, "text", Resource("", "Assets")) by {
      LastHere(es, 1, ResourceOf, "text", Resource("", "Assets"));
    }
    LastDefinitionWins(es, LocatorOf, "loc", "a:A");
    LastDefinitionWins(es, ResourceOf, "text", Resource("", "Assets"));
    hide Lookup, LocatorOf, ResourceOf;
  }

  lemma LastHere<V>(es: seq<Element>, i: nat, define: Element -> Option<Definition<V>>, name: string, value: V)
    requires i < |es| && define(es[i]) == Some(Definition(name, value))
    requires forall j | i < j < |es| :: define(es[j]).None?
    ensures LastDefines(es, i, define, name, value)
  {
  }

  lemma BlankIsBlank()
    ensures Strip("") == ""
  {
  }

  /** A label without a role, which section 5.2.2 allows, fails every document that
      holds such a link, whatever else it holds. */
  lemma MissingRoleFails(root: Element, path: Path)
    requires path != [] && At(root, path) == Some(LABEL_LINK)
    ensures AnyRefused(Labels(root), LabelRefused)
  {
    PlainLabelResolves();
    BlankIsBlank();
    hide LabelOf, Strip, Labels, At;
    var places := LabelsByPlace(root);
    var place := Place(path, 2);
    assert LABEL_LINK.children[2] == LABEL_ARC;
    assert Counts(root, LabelLink, place, LabelOf);
    var k :| 0 <= k < |places| && places[k] == place;
    assert ContributesAt(root, place, LabelOf, Labels(root)[k]);
    assert LabelRefused(Labels(root)[k]);
  }

  /** A presentation arc whose order reads as a number that is not finite. */
  const ENDLESS_ARC: Element := Element(PresentationArc, map[From := "parent", To := "child", Order := "nan"], "", [])

  const ENDLESS_LINK: Element :=
    Element(PresentationLink, map[Role := "r"], "", [Locator("parent", "a:A"), Locator("child", "b:B"), ENDLESS_ARC])

  lemma EndlessArcResolves(float: string -> Number)
    requires float("nan").NotFinite?
    ensures PresentationOf(ENDLESS_LINK, ENDLESS_ARC, float) == Some(Presentation("r", "a:A", "b:B", NotFinite))
  {
    hide ConceptQname, LastDefines;
    ExampleConcepts();
    LocatorDefines("parent", "a:A");
    LocatorDefines("child", "b:B");
    var es := ENDLESS_LINK.children;
    assert "parent"[0] != "child"[0];
    assert LastDefines(es, 0, LocatorOf, "parent", "a:A") by { FirstOfTwo(es); }
    assert LastDefines(es, 1, LocatorOf, "child", "b:B") by { LastHere(es, 1, LocatorOf, "child", "b:B"); }
    LastDefinitionWins(es, LocatorOf, "parent", "a:A");
    LastDefinitionWins(es, LocatorOf, "child", "b:B");
    hide Lookup, LocatorOf;
  }

  lemma FirstOfTwo(es: seq<Element>)
    requires |es| == 3 && LocatorOf(es[0]) == Some(Definition("parent", "a:A"))
    requires LocatorOf(es[1]) == Some(Definition("child", "b:B")) && LocatorOf(es[2]).None?
    ensures LastDefines(es, 0, LocatorOf, "parent", "a:A")
  {
    hide LocatorOf;
    assert "parent"[0] != "child"[0];
  }

  /** One order of "nan" fails every document that holds such a link, although an
      order that is no number is skipped. */
  lemma EndlessOrderFails(root: Element, path: Path, float: string -> Number)
    requires path != [] && At(root, path) == Some(ENDLESS_LINK) && float("nan").NotFinite?
    ensures AnyRefused(Presentations(root, float), PresentationRefused)
  {
    EndlessArcResolves(float);
    hide PresentationOf, Strip, Presentations, At;
    var join, place := PresentationJoin(float), Place(path, 2);
    var places := PresentationsByPlace(root, float);
    assert ENDLESS_LINK.children[2] == ENDLESS_ARC;
    assert Counts(root, PresentationLink, place, join);
    var k :| 0 <= k < |places| && places[k] == place;
    assert ContributesAt(root, place, join, Presentations(root, float)[k]);
    assert PresentationRefused(Presentations(root, float)[k]);
  }
}
