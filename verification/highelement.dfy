/** The project tree: suites and scenarios with cached, recursively
    aggregated diagnostics and descendants.

    In the Java tree each element keeps `allErrorsRecursive` and
    `childrenRecursively` as live multisets that a listener on `children`
    updates whenever children are added or removed. Here an element is an
    immutable value that carries those two caches as fields; the operations
    update the caches incrementally, exactly as the listener does, and the
    lemmas show that the incremental update agrees with recomputing the
    aggregates from scratch (`Valid`). Object identity is the `id` field. */
module HighElements {
  import opened Optional
  import opened Text

  type Id = nat

  datatype SnowrideError = SnowrideError(message: string)

  datatype LastChangeKind = Pristine | TextChanged | StructureChanged

  /** A suite owns its Settings section (absent when the file has none) and
      may be left out of its children's qualified names; a scenario owns its
      lines. */
  datatype ElementKind =
    | Suite(settings: Option<seq<Line>>, excludedFromQualifiedName: bool)
    | Scenario(lines: seq<Line>)

  datatype HighElement = HighElement(
    id: Id,
    shortName: string,
    kind: ElementKind,
    unsavedChanges: LastChangeKind,
    parent: Option<Id>,
    selfErrors: seq<SnowrideError>,
    children: seq<HighElement>,
    allErrorsRecursive: multiset<SnowrideError>,
    childrenRecursively: multiset<Id>)

  // ---------------------------------------------------------------------
  // What the listener adds for a list of children

  /** The children's cached aggregated errors, summed. */
  function ErrorsOf(cs: seq<HighElement>): multiset<SnowrideError> {
    if |cs| == 0 then multiset{} else cs[0].allErrorsRecursive + ErrorsOf(cs[1..])
  }

  /** The children themselves plus their cached descendants, summed. */
  function DescendantsOf(cs: seq<HighElement>): multiset<Id> {
    if |cs| == 0 then multiset{} else multiset{cs[0].id} + cs[0].childrenRecursively + DescendantsOf(cs[1..])
  }

  /** The aggregation invariant, at this element and at every element below. */
  ghost predicate Valid(e: HighElement) {
    && e.allErrorsRecursive == multiset(e.selfErrors) + ErrorsOf(e.children)
    && e.childrenRecursively == DescendantsOf(e.children)
    && forall k :: 0 <= k < |e.children| ==> Valid(e.children[k])
  }

  ghost predicate AllValid(cs: seq<HighElement>) {
    forall k :: 0 <= k < |cs| ==> Valid(cs[k])
  }

  lemma ValidIntro(e: HighElement)
    requires e.allErrorsRecursive == multiset(e.selfErrors) + ErrorsOf(e.children)
    requires e.childrenRecursively == DescendantsOf(e.children)
    requires AllValid(e.children)
    ensures Valid(e)
  {
  }

  lemma ConcatAllValid(a: seq<HighElement>, b: seq<HighElement>)
    requires AllValid(a) && AllValid(b)
    ensures AllValid(a + b)
  {
    forall j | 0 <= j < |a + b| ensures Valid((a + b)[j]) {
      if j >= |a| { assert (a + b)[j] == b[j - |a|]; }
    }
  }

  lemma UpdateAllValid(cs: seq<HighElement>, k: nat, c': HighElement)
    requires AllValid(cs) && k < |cs| && Valid(c')
    ensures AllValid(cs[k := c'])
  {
  }

  lemma {:induction false} ErrorsOfConcat(a: seq<HighElement>, b: seq<HighElement>)
    ensures ErrorsOf(a + b) == ErrorsOf(a) + ErrorsOf(b)
    decreases |a|
  {
    ConcatTail(a, b);
    if |a| > 0 {
      ErrorsOfConcat(a[1..], b);
    }
  }

  lemma {:induction false} DescendantsOfConcat(a: seq<HighElement>, b: seq<HighElement>)
    ensures DescendantsOf(a + b) == DescendantsOf(a) + DescendantsOf(b)
    decreases |a|
  {
    ConcatTail(a, b);
    if |a| > 0 {
      DescendantsOfConcat(a[1..], b);
    }
  }

  lemma SumsOfConcat(a: seq<HighElement>, b: seq<HighElement>)
    ensures ErrorsOf(a + b) == ErrorsOf(a) + ErrorsOf(b)
    ensures DescendantsOf(a + b) == DescendantsOf(a) + DescendantsOf(b)
  {
    ErrorsOfConcat(a, b);
    DescendantsOfConcat(a, b);
  }

  lemma SumsOfSplit(cs: seq<HighElement>, k: nat)
    requires k < |cs|
    ensures ErrorsOf(cs) == ErrorsOf(cs[..k]) + (cs[k].allErrorsRecursive + ErrorsOf(cs[k + 1..]))
    ensures DescendantsOf(cs) == DescendantsOf(cs[..k]) + ((multiset{cs[k].id} + cs[k].childrenRecursively)
                                 + DescendantsOf(cs[k + 1..]))
  {
    var b := [cs[k]] + cs[k + 1..];
    SliceAround(cs, k);
    ErrorsOfConcat(cs[..k], b);
    DescendantsOfConcat(cs[..k], b);
  }

  lemma UnionAssoc<T>(a: multiset<T>, b: multiset<T>, c: multiset<T>)
    ensures (a + b) + c == a + (b + c)
  {
    forall z ensures ((a + b) + c)[z] == (a + (b + c))[z] { }
  }

  lemma GrowBy<T>(x: multiset<T>, y: multiset<T>, c: multiset<T>, d: multiset<T>, s: multiset<T>)
    requires x + c == y + (c + d)
    ensures s + y + d == s + x
  {
    forall z
      ensures (s + y + d)[z] == (s + x)[z]
    {
      assert (x + c)[z] == (y + (c + d))[z];
    }
  }

  lemma ShrinkBy<T>(x: multiset<T>, y: multiset<T>, c: multiset<T>, g: multiset<T>, s: multiset<T>)
    requires x + (c + g) == y + c
    ensures (s + y) - g == s + x
    ensures ((s + y) - g) + g == s + y
  {
    forall z
      ensures ((s + y) - g)[z] == (s + x)[z]
    {
      assert (x + (c + g))[z] == (y + c)[z];
    }
    forall z
      ensures (((s + y) - g) + g)[z] == (s + y)[z]
    {
      assert (x + (c + g))[z] == (y + c)[z];
    }
  }

  lemma CancelPart<T>(total: multiset<T>, s: multiset<T>, a: multiset<T>, c: multiset<T>, b: multiset<T>)
    requires total == s + (a + (c + b))
    ensures total - c == s + (a + b)
    ensures total == (total - c) + c
  {
  }

  // ---------------------------------------------------------------------
  // Construction and addChildren

  /** The parent link `addChildren` sets: only scenario children are
      re-pointed at the receiving element. */
  function Adopt(c: HighElement, parentId: Id): (r: HighElement)
    ensures r.kind.Scenario? ==> r.parent == Some(parentId)
    ensures !c.kind.Scenario? ==> r == c
    ensures r.(parent := c.parent) == c
  {
    if c.kind.Scenario? then c.(parent := Some(parentId)) else c
  }

  function AdoptAll(cs: seq<HighElement>, parentId: Id): (r: seq<HighElement>)
    ensures |r| == |cs|
    ensures forall k :: 0 <= k < |cs| ==> r[k] == Adopt(cs[k], parentId)
  {
    if |cs| == 0 then [] else [Adopt(cs[0], parentId)] + AdoptAll(cs[1..], parentId)
  }

  lemma {:induction false} AdoptKeepsCaches(cs: seq<HighElement>, parentId: Id)
    ensures ErrorsOf(AdoptAll(cs, parentId)) == ErrorsOf(cs)
    ensures DescendantsOf(AdoptAll(cs, parentId)) == DescendantsOf(cs)
    ensures AllValid(cs) ==> AllValid(AdoptAll(cs, parentId))
    decreases |cs|
  {
    if |cs| > 0 {
      AdoptKeepsCaches(cs[1..], parentId);
      assert AdoptAll(cs, parentId)[1..] == AdoptAll(cs[1..], parentId);
    }
  }

  /** The receiving element must be a suite whenever a scenario is added:
      the Java code casts it to `Suite` to set the scenario's parent. */
  predicate CanAdopt(e: HighElement, cs: seq<HighElement>) {
    e.kind.Suite? || forall k :: 0 <= k < |cs| ==> !cs[k].kind.Scenario?
  }

  /** `addChildren`: appends the children in order; the listener adds each
      child's aggregated errors and the child with its descendants. */
  function AddChildren(e: HighElement, cs: seq<HighElement>): (r: HighElement)
    requires CanAdopt(e, cs)
    ensures |r.children| == |e.children| + |cs|
    ensures r.children[..|e.children|] == e.children
    ensures forall k :: 0 <= k < |cs| ==> r.children[|e.children| + k].(parent := cs[k].parent) == cs[k]
    ensures forall k :: 0 <= k < |cs| ==>
              r.children[|e.children| + k].parent == (if cs[k].kind.Scenario? then Some(e.id) else cs[k].parent)
    ensures r.id == e.id && r.shortName == e.shortName && r.kind == e.kind && r.selfErrors == e.selfErrors
    ensures r.parent == e.parent && r.unsavedChanges == e.unsavedChanges
  {
    var added := AdoptAll(cs, e.id);
    e.(children := e.children + added,
       allErrorsRecursive := e.allErrorsRecursive + ErrorsOf(added),
       childrenRecursively := e.childrenRecursively + DescendantsOf(added))
  }

  /** The aggregates grow by exactly the added children's aggregates: the
      parent links `addChildren` sets do not affect what is summed. */
  lemma {:induction false} AddChildrenGrows(e: HighElement, cs: seq<HighElement>)
    requires CanAdopt(e, cs)
    ensures AddChildren(e, cs).allErrorsRecursive == e.allErrorsRecursive + ErrorsOf(cs)
    ensures AddChildren(e, cs).childrenRecursively == e.childrenRecursively + DescendantsOf(cs)
  {
    AdoptKeepsCaches(cs, e.id);
  }

  /** Adding valid children to a valid element keeps it valid. */
  lemma {:induction false} AddChildrenKeepsValid(e: HighElement, cs: seq<HighElement>)
    requires CanAdopt(e, cs)
    requires Valid(e) && AllValid(cs)
    ensures Valid(AddChildren(e, cs))
  {
    var added := AdoptAll(cs, e.id);
    var r := AddChildren(e, cs);
    AdoptKeepsCaches(cs, e.id);
    SumsOfConcat(e.children, added);
    ConcatAllValid(e.children, added);
    assert r.children == e.children + added;
    UnionAssoc(multiset(e.selfErrors), ErrorsOf(e.children), ErrorsOf(added));
    ValidIntro(r);
  }

  /** The constructor: an element with no children yet, then `addChildren`. */
  function NewHighElement(id: Id, shortName: string, kind: ElementKind,
                          selfErrors: seq<SnowrideError>, children: seq<HighElement>): (r: HighElement)
    requires CanAdopt(HighElement(id, shortName, kind, Pristine, None, selfErrors, [], multiset{}, multiset{}), children)
    ensures r.allErrorsRecursive == multiset(selfErrors) + ErrorsOf(children)
    ensures r.childrenRecursively == DescendantsOf(children)
    ensures r.parent == None && r.unsavedChanges == Pristine && r.selfErrors == selfErrors
  {
    AdoptKeepsCaches(children, id);
    AddChildren(HighElement(id, shortName, kind, Pristine, None, selfErrors, [], multiset(selfErrors), multiset{}), children)
  }

  /** A freshly constructed element over valid children is valid. */
  lemma NewHighElementValid(id: Id, shortName: string, kind: ElementKind,
                            selfErrors: seq<SnowrideError>, children: seq<HighElement>)
    requires CanAdopt(HighElement(id, shortName, kind, Pristine, None, selfErrors, [], multiset{}, multiset{}), children)
    requires AllValid(children)
    ensures Valid(NewHighElement(id, shortName, kind, selfErrors, children))
  {
    AddChildrenKeepsValid(HighElement(id, shortName, kind, Pristine, None, selfErrors, [], multiset(selfErrors), multiset{}), children);
  }

  // ---------------------------------------------------------------------
  // dissociateSelfFromChild

  function IndexOfChild(cs: seq<HighElement>, childId: Id): (r: Option<nat>)
    ensures r.Some? ==> r.value < |cs| && cs[r.value].id == childId
    ensures r.Some? ==> forall k :: 0 <= k < r.value ==> cs[k].id != childId
    ensures r.None? ==> forall k :: 0 <= k < |cs| ==> cs[k].id != childId
  {
    if |cs| == 0 then None
    else if cs[0].id == childId then Some(0)
    else match IndexOfChild(cs[1..], childId)
      case None => None
      case Some(k) => Some(k + 1)
  }

  /** `dissociateSelfFromChild`: removes the child (the first one with that
      identity) and, through the listener, retracts its aggregated errors and
      it with its descendants. An element that is not a child: no change. */
  function DissociateSelfFromChild(e: HighElement, childId: Id): (r: HighElement)
    ensures IndexOfChild(e.children, childId).None? ==> r == e
    ensures IndexOfChild(e.children, childId).Some? ==>
              var k := IndexOfChild(e.children, childId).value;
              r.children == e.children[..k] + e.children[k + 1..]
    ensures r.id == e.id && r.shortName == e.shortName && r.kind == e.kind && r.selfErrors == e.selfErrors
    ensures r.parent == e.parent && r.unsavedChanges == e.unsavedChanges
  {
    match IndexOfChild(e.children, childId)
    case None => e
    case Some(k) =>
      var gone := e.children[k];
      e.(children := e.children[..k] + e.children[k + 1..],
         allErrorsRecursive := e.allErrorsRecursive - gone.allErrorsRecursive,
         childrenRecursively := e.childrenRecursively - (multiset{gone.id} + gone.childrenRecursively))
  }

  /** Removing a child keeps a valid element valid and retracts exactly the
      removed child's errors and the child with its descendants. */
  lemma {:induction false} DissociateKeepsValid(e: HighElement, childId: Id)
    requires Valid(e)
    ensures Valid(DissociateSelfFromChild(e, childId))
    ensures IndexOfChild(e.children, childId).Some? ==>
              var gone := e.children[IndexOfChild(e.children, childId).value];
              && DissociateSelfFromChild(e, childId).allErrorsRecursive + gone.allErrorsRecursive == e.allErrorsRecursive
              && DissociateSelfFromChild(e, childId).childrenRecursively + (multiset{childId} + gone.childrenRecursively)
                 == e.childrenRecursively
  {
    match IndexOfChild(e.children, childId)
    case None =>
    case Some(k) =>
      RemovalCaches(e, k);
      RemovalKeepsChildrenValid(e.children, k);
      ValidIntro(DissociateSelfFromChild(e, childId));
  }

  lemma RemovalCaches(e: HighElement, k: nat)
    requires Valid(e) && k < |e.children|
    ensures var cs := e.children;
      && e.allErrorsRecursive - cs[k].allErrorsRecursive == multiset(e.selfErrors) + ErrorsOf(cs[..k] + cs[k + 1..])
      && e.allErrorsRecursive == (e.allErrorsRecursive - cs[k].allErrorsRecursive) + cs[k].allErrorsRecursive
      && e.childrenRecursively - (multiset{cs[k].id} + cs[k].childrenRecursively) == DescendantsOf(cs[..k] + cs[k + 1..])
      && e.childrenRecursively == (e.childrenRecursively - (multiset{cs[k].id} + cs[k].childrenRecursively))
                                  + (multiset{cs[k].id} + cs[k].childrenRecursively)
  {
    var cs := e.children;
    SumsOfSplit(cs, k);
    SumsOfConcat(cs[..k], cs[k + 1..]);
    CancelPart(e.allErrorsRecursive, multiset(e.selfErrors), ErrorsOf(cs[..k]), cs[k].allErrorsRecursive,
               ErrorsOf(cs[k + 1..]));
    CancelPart(e.childrenRecursively, multiset{}, DescendantsOf(cs[..k]), multiset{cs[k].id} + cs[k].childrenRecursively,
               DescendantsOf(cs[k + 1..]));
  }

  lemma RemovalKeepsChildrenValid(cs: seq<HighElement>, k: nat)
    requires AllValid(cs) && k < |cs|
    ensures AllValid(cs[..k] + cs[k + 1..])
  {
    var rest := cs[..k] + cs[k + 1..];
    forall j | 0 <= j < |rest|
      ensures Valid(rest[j])
    {
      if j < k {
        assert rest[j] == cs[j];
      } else {
        assert rest[j] == cs[j + 1];
      }
    }
  }

  /** Adding a child and then dissociating it gives back the element
      unchanged: children, aggregated errors and descendants alike. */
  lemma AddThenDissociate(e: HighElement, c: HighElement)
    requires CanAdopt(e, [c])
    requires forall k :: 0 <= k < |e.children| ==> e.children[k].id != c.id
    ensures DissociateSelfFromChild(AddChildren(e, [c]), c.id) == e
  {
    var a := AddChildren(e, [c]);
    var added := AdoptAll([c], e.id);
    assert a.children == e.children + added;
    assert IndexOfChild(a.children, c.id) == Some(|e.children|);
    var gone := added[0];
    AppendThenCut(e.children, gone);
    assert added == [gone];
    assert ErrorsOf(added) == gone.allErrorsRecursive;
    assert DescendantsOf(added) == multiset{gone.id} + gone.childrenRecursively;
    AddThenSub(e.allErrorsRecursive, gone.allErrorsRecursive);
    AddThenSub(e.childrenRecursively, multiset{gone.id} + gone.childrenRecursively);
  }

  lemma AddThenSub<T>(a: multiset<T>, b: multiset<T>)
    ensures (a + b) - b == a
  {
    forall z ensures ((a + b) - b)[z] == a[z] { }
  }

  // ---------------------------------------------------------------------
  // Operations deep in the tree: the change reaches every ancestor

  predicate ValidPath(root: HighElement, path: seq<nat>)
    decreases |path|
  {
    |path| == 0 || (path[0] < |root.children| && ValidPath(root.children[path[0]], path[1..]))
  }

  function ElementAt(root: HighElement, path: seq<nat>): HighElement
    requires ValidPath(root, path)
    decreases |path|
  {
    if |path| == 0 then root else ElementAt(root.children[path[0]], path[1..])
  }

  /** The element's own fields: everything but its children and aggregates. */
  predicate SameShell(a: HighElement, b: HighElement) {
    && a.id == b.id && a.shortName == b.shortName && a.kind == b.kind
    && a.selfErrors == b.selfErrors && a.parent == b.parent && a.unsavedChanges == b.unsavedChanges
  }

  /** `b` has the children of `a`, except possibly the one at index `k`. */
  predicate KeepsOffPath(a: HighElement, b: HighElement, k: nat) {
    && |b.children| == |a.children| && k < |a.children|
    && forall j :: 0 <= j < |a.children| && j != k ==> b.children[j] == a.children[j]
  }

  lemma {:induction false} ValidPathPrefix(root: HighElement, path: seq<nat>, d: nat)
    requires ValidPath(root, path) && d <= |path|
    ensures ValidPath(root, path[..d])
    ensures d < |path| ==> path[d] < |ElementAt(root, path[..d]).children|
    decreases d
  {
    if d > 0 {
      assert path[..d][1..] == path[1..][..d - 1];
      ValidPathPrefix(root.children[path[0]], path[1..], d - 1);
    }
  }

  /** `addChildren` on the element at `path`; each ancestor's live
      aggregates receive the added children's aggregates. */
  function AddChildrenAt(root: HighElement, path: seq<nat>, cs: seq<HighElement>): (r: HighElement)
    requires ValidPath(root, path) && CanAdopt(ElementAt(root, path), cs)
    ensures SameShell(root, r)
    ensures |path| > 0 ==> KeepsOffPath(root, r, path[0])
    ensures ValidPath(r, path) && ElementAt(r, path) == AddChildren(ElementAt(root, path), cs)
    ensures r.allErrorsRecursive == root.allErrorsRecursive + ErrorsOf(cs)
    ensures r.childrenRecursively == root.childrenRecursively + DescendantsOf(cs)
    decreases |path|
  {
    if |path| == 0 then AddChildrenGrows(root, cs); AddChildren(root, cs)
    else
      var k := path[0];
      root.(children := root.children[k := AddChildrenAt(root.children[k], path[1..], cs)],
            allErrorsRecursive := root.allErrorsRecursive + ErrorsOf(cs),
            childrenRecursively := root.childrenRecursively + DescendantsOf(cs))
  }

  lemma ReplaceChild(cs: seq<HighElement>, k: nat, c: HighElement)
    requires k < |cs|
    ensures ErrorsOf(cs[k := c]) + cs[k].allErrorsRecursive == ErrorsOf(cs) + c.allErrorsRecursive
    ensures DescendantsOf(cs[k := c]) + (multiset{cs[k].id} + cs[k].childrenRecursively)
            == DescendantsOf(cs) + (multiset{c.id} + c.childrenRecursively)
  {
    SumsOfSplit(cs, k);
    SumsOfSplit(cs[k := c], k);
    assert cs[k := c][..k] == cs[..k];
    assert cs[k := c][k + 1..] == cs[k + 1..];
  }

  /** Adding a valid subtree anywhere keeps the whole tree valid, and the
      root's aggregates grow by exactly the subtree's aggregates. */
  lemma {:induction false} AddChildrenAtKeepsValid(root: HighElement, path: seq<nat>, cs: seq<HighElement>)
    requires ValidPath(root, path) && CanAdopt(ElementAt(root, path), cs)
    requires Valid(root) && AllValid(cs)
    ensures Valid(AddChildrenAt(root, path, cs))
    ensures AddChildrenAt(root, path, cs).id == root.id
    ensures AddChildrenAt(root, path, cs).allErrorsRecursive == root.allErrorsRecursive + ErrorsOf(cs)
    ensures AddChildrenAt(root, path, cs).childrenRecursively == root.childrenRecursively + DescendantsOf(cs)
    decreases |path|
  {
    if |path| == 0 {
      AddChildrenKeepsValid(root, cs);
      AddChildrenGrows(root, cs);
    } else {
      var k := path[0];
      var c := root.children[k];
      AddChildrenAtKeepsValid(c, path[1..], cs);
      GrowChild(root, k, AddChildrenAt(c, path[1..], cs), ErrorsOf(cs), DescendantsOf(cs));
    }
  }

  /** At every level above the target, the element keeps its own fields and
      every child off the path: the listener only touches aggregates. */
  lemma {:induction false} AddChildrenAtFrame(root: HighElement, path: seq<nat>, cs: seq<HighElement>, d: nat)
    requires ValidPath(root, path) && CanAdopt(ElementAt(root, path), cs) && d < |path|
    ensures ValidPath(root, path[..d]) && ValidPath(AddChildrenAt(root, path, cs), path[..d])
    ensures var above := ElementAt(root, path[..d]);
            var after := ElementAt(AddChildrenAt(root, path, cs), path[..d]);
      SameShell(above, after) && KeepsOffPath(above, after, path[d])
    decreases d
  {
    ValidPathPrefix(root, path, d);
    if d > 0 {
      var c := root.children[path[0]];
      assert path[..d][1..] == path[1..][..d - 1];
      AddChildrenAtFrame(c, path[1..], cs, d - 1);
    }
  }

  /** Replacing a child by one whose aggregates grew by `dE`/`dD`, and
      growing the parent's aggregates by the same amounts, keeps validity. */
  lemma GrowChild(root: HighElement, k: nat, c': HighElement, dE: multiset<SnowrideError>, dD: multiset<Id>)
    requires Valid(root) && k < |root.children| && Valid(c')
    requires c'.id == root.children[k].id
    requires c'.allErrorsRecursive == root.children[k].allErrorsRecursive + dE
    requires c'.childrenRecursively == root.children[k].childrenRecursively + dD
    ensures Valid(root.(children := root.children[k := c'],
                        allErrorsRecursive := root.allErrorsRecursive + dE,
                        childrenRecursively := root.childrenRecursively + dD))
  {
    var ch := root.children;
    var ch' := ch[k := c'];
    GrowSums(ch, k, c', dE, dD);
    GrowBy(ErrorsOf(ch'), ErrorsOf(ch), ch[k].allErrorsRecursive, dE, multiset(root.selfErrors));
    UpdateAllValid(ch, k, c');
    ValidIntro(root.(children := ch', allErrorsRecursive := root.allErrorsRecursive + dE,
                     childrenRecursively := root.childrenRecursively + dD));
  }

  lemma GrowSums(ch: seq<HighElement>, k: nat, c': HighElement, dE: multiset<SnowrideError>, dD: multiset<Id>)
    requires k < |ch| && c'.id == ch[k].id
    requires c'.allErrorsRecursive == ch[k].allErrorsRecursive + dE
    requires c'.childrenRecursively == ch[k].childrenRecursively + dD
    ensures ErrorsOf(ch[k := c']) + ch[k].allErrorsRecursive == ErrorsOf(ch) + (ch[k].allErrorsRecursive + dE)
    ensures DescendantsOf(ch[k := c']) == DescendantsOf(ch) + dD
  {
    ReplaceChild(ch, k, c');
    var x := DescendantsOf(ch[k := c']);
    var y := DescendantsOf(ch);
    var c := multiset{ch[k].id} + ch[k].childrenRecursively;
    assert x + c == y + (c + dD);
    forall z
      ensures x[z] == (y + dD)[z]
    {
      assert (x + c)[z] == (y + (c + dD))[z];
    }
  }

  /** Replacing a child by one whose aggregates lost `gE`/`gD`, and taking
      the same amounts from the parent, keeps validity. */
  lemma ShrinkChild(root: HighElement, k: nat, c': HighElement, gE: multiset<SnowrideError>, gD: multiset<Id>)
    requires Valid(root) && k < |root.children| && Valid(c')
    requires c'.id == root.children[k].id
    requires c'.allErrorsRecursive + gE == root.children[k].allErrorsRecursive
    requires c'.childrenRecursively + gD == root.children[k].childrenRecursively
    ensures Valid(root.(children := root.children[k := c'],
                        allErrorsRecursive := root.allErrorsRecursive - gE,
                        childrenRecursively := root.childrenRecursively - gD))
    ensures (root.allErrorsRecursive - gE) + gE == root.allErrorsRecursive
    ensures (root.childrenRecursively - gD) + gD == root.childrenRecursively
  {
    var ch := root.children;
    var ch' := ch[k := c'];
    ShrinkSums(ch, k, c', gE, gD);
    ShrinkBy(ErrorsOf(ch'), ErrorsOf(ch), c'.allErrorsRecursive, gE, multiset(root.selfErrors));
    UpdateAllValid(ch, k, c');
    ValidIntro(root.(children := ch', allErrorsRecursive := root.allErrorsRecursive - gE,
                     childrenRecursively := root.childrenRecursively - gD));
  }

  lemma ShrinkSums(ch: seq<HighElement>, k: nat, c': HighElement, gE: multiset<SnowrideError>, gD: multiset<Id>)
    requires k < |ch| && c'.id == ch[k].id
    requires c'.allErrorsRecursive + gE == ch[k].allErrorsRecursive
    requires c'.childrenRecursively + gD == ch[k].childrenRecursively
    ensures ErrorsOf(ch[k := c']) + (c'.allErrorsRecursive + gE) == ErrorsOf(ch) + c'.allErrorsRecursive
    ensures DescendantsOf(ch) - gD == DescendantsOf(ch[k := c'])
    ensures (DescendantsOf(ch) - gD) + gD == DescendantsOf(ch)
  {
    ReplaceChild(ch, k, c');
    var x := DescendantsOf(ch[k := c']);
    var y := DescendantsOf(ch);
    var c := multiset{c'.id} + c'.childrenRecursively;
    assert x + (c + gD) == y + c;
    forall z
      ensures (y - gD)[z] == x[z]
    {
      assert (x + (c + gD))[z] == (y + c)[z];
    }
    forall z
      ensures ((y - gD) + gD)[z] == y[z]
    {
      assert (x + (c + gD))[z] == (y + c)[z];
    }
  }

  /** `dissociateSelfFromChild` on the element at `path`; each ancestor's
      aggregates lose what the removed child contributed. */
  function DissociateAt(root: HighElement, path: seq<nat>, childId: Id): (r: HighElement)
    requires ValidPath(root, path)
    ensures SameShell(root, r)
    ensures |path| > 0 ==> KeepsOffPath(root, r, path[0])
    ensures ValidPath(r, path) && ElementAt(r, path) == DissociateSelfFromChild(ElementAt(root, path), childId)
    decreases |path|
  {
    if |path| == 0 then DissociateSelfFromChild(root, childId)
    else
      var k := path[0];
      var target := ElementAt(root.children[k], path[1..]);
      match IndexOfChild(target.children, childId)
      case None => root
      case Some(j) =>
        var gone := target.children[j];
        root.(children := root.children[k := DissociateAt(root.children[k], path[1..], childId)],
              allErrorsRecursive := root.allErrorsRecursive - gone.allErrorsRecursive,
              childrenRecursively := root.childrenRecursively - (multiset{gone.id} + gone.childrenRecursively))
  }

  /** At every level above the target, the element keeps its own fields and
      every child off the path: the listener only touches aggregates. */
  lemma {:induction false} DissociateAtFrame(root: HighElement, path: seq<nat>, childId: Id, d: nat)
    requires ValidPath(root, path) && d < |path|
    ensures ValidPath(root, path[..d]) && ValidPath(DissociateAt(root, path, childId), path[..d])
    ensures var above := ElementAt(root, path[..d]);
            var after := ElementAt(DissociateAt(root, path, childId), path[..d]);
      SameShell(above, after) && KeepsOffPath(above, after, path[d])
    decreases d
  {
    ValidPathPrefix(root, path, d);
    if d > 0 {
      var c := root.children[path[0]];
      assert path[..d][1..] == path[1..][..d - 1];
      DissociateAtFrame(c, path[1..], childId, d - 1);
    }
  }

  lemma {:induction false} ElementAtValid(root: HighElement, path: seq<nat>)
    requires ValidPath(root, path) && Valid(root)
    ensures Valid(ElementAt(root, path))
    decreases |path|
  {
    if |path| > 0 {
      ElementAtValid(root.children[path[0]], path[1..]);
    }
  }

  lemma DissociateAtStep(root: HighElement, path: seq<nat>, childId: Id)
    requires ValidPath(root, path) && |path| > 0
    ensures var c := root.children[path[0]];
      match IndexOfChild(ElementAt(c, path[1..]).children, childId)
      case None => DissociateAt(root, path, childId) == root
      case Some(j) =>
        var gone := ElementAt(c, path[1..]).children[j];
        DissociateAt(root, path, childId)
        == root.(children := root.children[path[0] := DissociateAt(c, path[1..], childId)],
                 allErrorsRecursive := root.allErrorsRecursive - gone.allErrorsRecursive,
                 childrenRecursively := root.childrenRecursively - (multiset{gone.id} + gone.childrenRecursively))
  {
  }

  /** Removing a child anywhere keeps the whole tree valid, and the root's
      aggregates shrink by exactly the removed subtree's aggregates. */
  lemma {:induction false} DissociateAtKeepsValid(root: HighElement, path: seq<nat>, childId: Id)
    requires ValidPath(root, path) && Valid(root)
    ensures Valid(DissociateAt(root, path, childId))
    ensures DissociateAt(root, path, childId).id == root.id
    ensures var target := ElementAt(root, path);
      match IndexOfChild(target.children, childId)
      case None => DissociateAt(root, path, childId) == root
      case Some(j) =>
        && DissociateAt(root, path, childId).allErrorsRecursive + target.children[j].allErrorsRecursive
           == root.allErrorsRecursive
        && DissociateAt(root, path, childId).childrenRecursively
           + (multiset{childId} + target.children[j].childrenRecursively) == root.childrenRecursively
    decreases |path|
  {
    if |path| == 0 {
      DissociateKeepsValid(root, childId);
    } else {
      var k := path[0];
      var c := root.children[k];
      var target := ElementAt(c, path[1..]);
      assert target == ElementAt(root, path);
      DissociateAtKeepsValid(c, path[1..], childId);
      DissociateAtStep(root, path, childId);
      match IndexOfChild(target.children, childId)
      case None =>
      case Some(j) =>
        var gone := target.children[j];
        ShrinkChild(root, k, DissociateAt(c, path[1..], childId), gone.allErrorsRecursive,
                    multiset{gone.id} + gone.childrenRecursively);
    }
  }


  // ---------------------------------------------------------------------
  // Reference definitions: the aggregates recomputed from scratch

  /** `selfAndDescendantHighElements`: the element, then each child's own
      listing in order (pre-order). */
  function SelfAndDescendants(e: HighElement): (r: seq<HighElement>)
    ensures |r| >= 1 && r[0] == e
    decreases e, 1
  {
    [e] + DescendantsList(e.children)
  }

  function DescendantsList(cs: seq<HighElement>): seq<HighElement>
    decreases cs, 0
  {
    if |cs| == 0 then [] else SelfAndDescendants(cs[0]) + DescendantsList(cs[1..])
  }

  function ErrorsIn(s: seq<HighElement>): multiset<SnowrideError> {
    if |s| == 0 then multiset{} else multiset(s[0].selfErrors) + ErrorsIn(s[1..])
  }

  function IdsIn(s: seq<HighElement>): multiset<Id> {
    if |s| == 0 then multiset{} else multiset{s[0].id} + IdsIn(s[1..])
  }

  lemma {:induction false} ListingSumsConcat(a: seq<HighElement>, b: seq<HighElement>)
    ensures ErrorsIn(a + b) == ErrorsIn(a) + ErrorsIn(b)
    ensures IdsIn(a + b) == IdsIn(a) + IdsIn(b)
    decreases |a|
  {
    if |a| > 0 {
      assert (a + b)[1..] == a[1..] + b;
      ListingSumsConcat(a[1..], b);
    } else {
      assert a + b == b;
    }
  }

  /** For a valid element the cached aggregates are what recomputation over
      the pre-order listing gives: all self errors of the element and its
      descendants, and the ids of every element strictly below it. */
  lemma {:induction false} CachesMatchListing(e: HighElement)
    requires Valid(e)
    ensures e.allErrorsRecursive == ErrorsIn(SelfAndDescendants(e))
    ensures e.childrenRecursively == IdsIn(SelfAndDescendants(e)[1..])
    decreases e, 1
  {
    ListMatches(e.children);
    var s := SelfAndDescendants(e);
    assert s[1..] == DescendantsList(e.children);
    assert s == [e] + s[1..];
    ListingSumsConcat([e], s[1..]);
  }

  lemma {:induction false} ListMatches(cs: seq<HighElement>)
    requires AllValid(cs)
    ensures ErrorsOf(cs) == ErrorsIn(DescendantsList(cs))
    ensures DescendantsOf(cs) == IdsIn(DescendantsList(cs))
    decreases cs, 0
  {
    if |cs| > 0 {
      CachesMatchListing(cs[0]);
      ListMatches(cs[1..]);
      var s := SelfAndDescendants(cs[0]);
      ListingSumsConcat(s, DescendantsList(cs[1..]));
      assert s == [cs[0]] + s[1..];
      ListingSumsConcat([cs[0]], s[1..]);
    }
  }

  /** Ids are unique in the tree: every element is a distinct object. */
  ghost predicate UniqueIds(e: HighElement) {
    forall id :: IdsIn(SelfAndDescendants(e))[id] <= 1
  }

  /** An element never appears among its own descendants. */
  lemma NotOwnDescendant(e: HighElement)
    requires Valid(e) && UniqueIds(e)
    ensures e.id !in e.childrenRecursively
  {
    CachesMatchListing(e);
    var s := SelfAndDescendants(e);
    assert s == [e] + s[1..];
    ListingSumsConcat([e], s[1..]);
    assert IdsIn(s)[e.id] == 1 + IdsIn(s[1..])[e.id];
  }

  // ---------------------------------------------------------------------
  // Qualified names

  predicate ExcludedFromQualifiedName(e: HighElement) {
    e.kind.Suite? && e.kind.excludedFromQualifiedName
  }

  /** The element's `parent` field names the element right above it in
      the containment chain. */
  predicate LinkedTo(e: HighElement, above: HighElement) {
    e.parent == Some(above.id)
  }

  /** `getQualifiedName`: the short name, prefixed by the parent's qualified
      name while the `parent` field is set and the parent takes part in
      naming. `ancestors` is the containment chain, nearest first; the field
      is followed only where it names the container, which is the only
      element `addChildren` ever stores there. */
  function QualifiedName(e: HighElement, ancestors: seq<HighElement>): (r: string)
    ensures r == e.shortName || EndsWith(r, "." + e.shortName)
    decreases |ancestors|
  {
    if |ancestors| == 0 || !LinkedTo(e, ancestors[0]) || ExcludedFromQualifiedName(ancestors[0]) then e.shortName
    else
      var above := QualifiedName(ancestors[0], ancestors[1..]);
      assert (above + "." + e.shortName)[|above|..] == "." + e.shortName;
      above + "." + e.shortName
  }

  function DotJoin(names: seq<string>): string
    requires |names| > 0
  {
    if |names| == 1 then names[0] else DotJoin(names[..|names| - 1]) + "." + names[|names| - 1]
  }

  /** The element `k` steps up the chain: `e` itself for `k == 0`. */
  function Below(e: HighElement, ancestors: seq<HighElement>, k: nat): HighElement
    requires k <= |ancestors|
  {
    if k == 0 then e else ancestors[k - 1]
  }

  /** How many of the nearest ancestors take part in the name: the walk up
      goes on while the element below links to the ancestor through its
      `parent` field and the ancestor is not excluded from naming. */
  function NamedDepth(e: HighElement, ancestors: seq<HighElement>): (n: nat)
    ensures n <= |ancestors|
    ensures forall k :: 0 <= k < n ==>
              LinkedTo(Below(e, ancestors, k), ancestors[k]) && !ExcludedFromQualifiedName(ancestors[k])
    ensures n < |ancestors| ==>
              !LinkedTo(Below(e, ancestors, n), ancestors[n]) || ExcludedFromQualifiedName(ancestors[n])
    decreases |ancestors|
  {
    if |ancestors| == 0 || !LinkedTo(e, ancestors[0]) || ExcludedFromQualifiedName(ancestors[0]) then 0
    else
      var m := NamedDepth(ancestors[0], ancestors[1..]);
      assert forall k :: 1 <= k <= m ==> Below(e, ancestors, k) == Below(ancestors[0], ancestors[1..], k - 1);
      1 + m
  }

  /** Outermost first: the short names of the named ancestors, reversed. */
  function OutermostFirst(ancestors: seq<HighElement>): (r: seq<string>)
    ensures |r| == |ancestors|
    ensures forall k :: 0 <= k < |r| ==> r[k] == ancestors[|ancestors| - 1 - k].shortName
  {
    if |ancestors| == 0 then [] else OutermostFirst(ancestors[1..]) + [ancestors[0].shortName]
  }

  /** The qualified name is the dot-joined list of short names from the
      outermost ancestor reached through parent links down to the element. */
  lemma {:induction false} QualifiedNameIsDottedPath(e: HighElement, ancestors: seq<HighElement>)
    ensures QualifiedName(e, ancestors)
            == DotJoin(OutermostFirst(ancestors[..NamedDepth(e, ancestors)]) + [e.shortName])
    decreases |ancestors|
  {
    var n := NamedDepth(e, ancestors);
    if n == 0 {
      assert OutermostFirst(ancestors[..0]) + [e.shortName] == [e.shortName];
    } else {
      var tail := ancestors[1..];
      QualifiedNameIsDottedPath(ancestors[0], tail);
      assert NamedDepth(ancestors[0], tail) == n - 1;
      assert ancestors[..n][1..] == tail[..n - 1];
      var names := OutermostFirst(tail[..n - 1]) + [ancestors[0].shortName];
      assert OutermostFirst(ancestors[..n]) == names;
      assert (names + [e.shortName])[..|names|] == names;
    }
  }

  /** Names after `addChildren`: an added scenario is linked to the
      receiving element and so is named under it (unless that element is
      excluded from naming), while an added suite keeps its own `parent`
      field and, when that is unset, is named by its short name alone. */
  lemma AddedChildNames(e: HighElement, cs: seq<HighElement>, k: nat, ancestors: seq<HighElement>)
    requires CanAdopt(e, cs) && k < |cs|
    ensures var r := AddChildren(e, cs);
            var c := r.children[|e.children| + k];
      && (cs[k].kind.Scenario? && !ExcludedFromQualifiedName(e) ==>
            QualifiedName(c, [r] + ancestors) == QualifiedName(e, ancestors) + "." + cs[k].shortName)
      && (cs[k].kind.Scenario? && ExcludedFromQualifiedName(e) ==> QualifiedName(c, [r] + ancestors) == cs[k].shortName)
      && (!cs[k].kind.Scenario? && cs[k].parent.None? ==> QualifiedName(c, [r] + ancestors) == cs[k].shortName)
  {
    var r := AddChildren(e, cs);
    assert ([r] + ancestors)[1..] == ancestors;
    assert QualifiedName(r, ancestors) == QualifiedName(e, ancestors);
  }

  // ---------------------------------------------------------------------
  // The name index the correlator searches

  /** One element as the correlator sees it: identity, qualified name, kind. */
  datatype Entry = Entry(id: Id, qualifiedName: string, kind: ElementKind)

  /** The entries list the elements one for one, with their ids and kinds. */
  predicate Lists(entries: seq<Entry>, elements: seq<HighElement>) {
    && |entries| == |elements|
    && forall k :: 0 <= k < |entries| ==> entries[k].id == elements[k].id && entries[k].kind == elements[k].kind
  }

  lemma ListsConcat(a: seq<Entry>, b: seq<Entry>, x: seq<HighElement>, y: seq<HighElement>)
    requires Lists(a, x) && Lists(b, y)
    ensures Lists(a + b, x + y)
  {
    forall k | |a| <= k < |a + b| ensures (a + b)[k] == b[k - |a|] && (x + y)[k] == y[k - |a|] { }
  }

  /** The element and its descendants in pre-order, each with the qualified
      name its parent links give it within the containment chain. */
  function Registry(e: HighElement, ancestors: seq<HighElement>): (r: seq<Entry>)
    ensures |r| >= 1 && r[0] == Entry(e.id, QualifiedName(e, ancestors), e.kind)
    ensures Lists(r, SelfAndDescendants(e))
    decreases e, 1
  {
    var rest := RegistryList(e.children, [e] + ancestors);
    ListsConcat([Entry(e.id, QualifiedName(e, ancestors), e.kind)], rest, [e], DescendantsList(e.children));
    [Entry(e.id, QualifiedName(e, ancestors), e.kind)] + rest
  }

  function RegistryList(cs: seq<HighElement>, ancestors: seq<HighElement>): (r: seq<Entry>)
    ensures Lists(r, DescendantsList(cs))
    decreases cs, 0
  {
    if |cs| == 0 then []
    else
      ListsConcat(Registry(cs[0], ancestors), RegistryList(cs[1..], ancestors),
                  SelfAndDescendants(cs[0]), DescendantsList(cs[1..]));
      Registry(cs[0], ancestors) + RegistryList(cs[1..], ancestors)
  }

  function EntryIds(entries: seq<Entry>): multiset<Id> {
    if |entries| == 0 then multiset{} else multiset{entries[0].id} + EntryIds(entries[1..])
  }

  lemma {:induction false} EntryIdsConcat(a: seq<Entry>, b: seq<Entry>)
    ensures EntryIds(a + b) == EntryIds(a) + EntryIds(b)
    decreases |a|
  {
    if |a| > 0 {
      assert (a + b)[1..] == a[1..] + b;
      EntryIdsConcat(a[1..], b);
    } else {
      assert a + b == b;
    }
  }

  /** What `findHighElement` iterates: the root's `childrenRecursively`,
      listed in pre-order with qualified names. */
  function SearchIndex(root: HighElement): (r: seq<Entry>)
    ensures Lists(r, DescendantsList(root.children))
  {
    RegistryList(root.children, [root])
  }

  /** The index lists exactly the root's cached `childrenRecursively`. */
  lemma SearchIndexCoversDescendants(root: HighElement)
    requires Valid(root)
    ensures EntryIds(SearchIndex(root)) == root.childrenRecursively
  {
    RegistryIdsMatch(root.children, [root]);
  }

  lemma {:induction false} RegistryIdsMatch(cs: seq<HighElement>, ancestors: seq<HighElement>)
    requires AllValid(cs)
    ensures EntryIds(RegistryList(cs, ancestors)) == DescendantsOf(cs)
    decreases cs
  {
    if |cs| > 0 {
      var c := cs[0];
      RegistryIdsMatch(c.children, [c] + ancestors);
      RegistryIdsMatch(cs[1..], ancestors);
      var head := Registry(c, ancestors);
      EntryIdsConcat(head, RegistryList(cs[1..], ancestors));
      assert head == [head[0]] + RegistryList(c.children, [c] + ancestors);
      EntryIdsConcat([head[0]], RegistryList(c.children, [c] + ancestors));
    }
  }

  // ---------------------------------------------------------------------
  // toString

  const TextChangedMarker := "[text changed] "
  const StructureChangedMarker := "[structure changed] "

  /** `toString`: the short name, prefixed when there are unsaved changes;
      `useStructureChanged` is the user setting choosing the long prefixes. */
  function ToString(e: HighElement, useStructureChanged: bool): (r: string)
    ensures EndsWith(r, e.shortName)
    ensures e.unsavedChanges == Pristine <==> r == e.shortName
    ensures !useStructureChanged && e.unsavedChanges != Pristine ==> r == "*" + e.shortName
    ensures useStructureChanged && e.unsavedChanges == TextChanged ==> r == TextChangedMarker + e.shortName
    ensures useStructureChanged && e.unsavedChanges == StructureChanged ==> r == StructureChangedMarker + e.shortName
  {
    var prefix :=
      match e.unsavedChanges
      case TextChanged => if useStructureChanged then TextChangedMarker else "*"
      case StructureChanged => if useStructureChanged then StructureChangedMarker else "*"
      case Pristine => "";
    assert (prefix + e.shortName)[|prefix|..] == e.shortName;
    assert |prefix + e.shortName| != |e.shortName| <== e.unsavedChanges != Pristine;
    prefix + e.shortName
  }

  function PrefixLength(change: LastChangeKind): nat {
    match change
    case Pristine => 0
    case TextChanged => |TextChangedMarker|
    case StructureChanged => |StructureChangedMarker|
  }

  /** With the long prefixes on, the display text tells the three change
      states apart. */
  lemma ToStringDistinguishesChanges(e1: HighElement, e2: HighElement)
    requires e1.shortName == e2.shortName
    requires ToString(e1, true) == ToString(e2, true)
    ensures e1.unsavedChanges == e2.unsavedChanges
  {
    assert |ToString(e1, true)| == PrefixLength(e1.unsavedChanges) + |e1.shortName|;
    assert |ToString(e2, true)| == PrefixLength(e2.unsavedChanges) + |e2.shortName|;
  }
}
