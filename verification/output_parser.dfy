/** The output correlator: maps a test-run result tree onto the project
    tree by qualified name and moves failing setups and teardowns that a
    test inherited from a suite's Settings section onto that suite.

    The result tree is immutable here. What the Java code changes in it (the
    keyword lists of tests and suites) is kept in `Correlation.edits`, keyed
    by the node's `Frame` (its child-index path together with the node),
    which plays the part of object identity. What it changes in the project
    tree (the `outputElement` slot and the failing icon of an element) is
    recorded, in order, as `Correlation.effects` and applied by
    `ApplyEffects`. The `parent` field the Java code sets on each result
    node is replaced by the explicit list of ancestor frames, nearest first. */
module OutputParser {
  import opened Optional
  import opened Text
  import HE = HighElements

  type Path = seq<nat>
  type Id = HE.Id

  datatype KeywordType = Setup | SetupRf3 | Teardown | TeardownRf3 | TestSetup | TestTeardown | OtherKeywordType

  datatype Status = Passed | Failed | Skipped | NotRun

  datatype Keyword = Keyword(name: string, kind: KeywordType, status: Status)

  /** A node of the result document. A suite's `keywords` are its own setup
      and teardown records; a test's `keywords` are its body records. */
  datatype OutputElement =
    | OutputSuite(fullName: string, keywords: seq<Keyword>, elements: seq<OutputElement>)
    | Test(fullName: string, status: Status, keywords: seq<Keyword>, elements: seq<OutputElement>)
    | OtherElement(elements: seq<OutputElement>)

  /** A result node together with where it sits in the result tree. */
  datatype Frame = Frame(path: Path, element: OutputElement)

  datatype Effect = AssignOutput(id: Id, path: Path) | MarkFailing(id: Id)

  datatype Correlation = Correlation(edits: map<Frame, seq<Keyword>>, effects: seq<Effect>)

  /** What a correlation pass leaves on the project tree: the result node
      each element's `outputElement` slot holds, and the elements whose tree
      icon shows the error image. */
  datatype SourceMarks = SourceMarks(outputElement: map<Id, Path>, failing: set<Id>)

  /** The keyword list of a result node as the pass has left it so far. */
  function Current(edits: map<Frame, seq<Keyword>>, fr: Frame): seq<Keyword> {
    if fr in edits then edits[fr]
    else if fr.element.OtherElement? then []
    else fr.element.keywords
  }

  /** The result node reached from `root` by following child indices. */
  function NodeAt(root: OutputElement, path: Path): Option<OutputElement>
    decreases |path|
  {
    if |path| == 0 then Some(root)
    else if path[0] < |root.elements| then NodeAt(root.elements[path[0]], path[1..])
    else None
  }

  function ChildFrame(fr: Frame, i: nat): Frame
    requires i < |fr.element.elements|
  {
    Frame(fr.path + [i], fr.element.elements[i])
  }

  predicate AppendsTo(st: Correlation, r: Correlation) {
    |st.effects| <= |r.effects| && r.effects[..|st.effects|] == st.effects
  }

  lemma AppendsTrans(a: Correlation, b: Correlation, c: Correlation)
    requires AppendsTo(a, b) && AppendsTo(b, c)
    ensures AppendsTo(a, c)
  {
    assert c.effects[..|a.effects|] == c.effects[..|b.effects|][..|a.effects|];
  }

  // ---------------------------------------------------------------------
  // Searching

  /** `findLineStartingWith`: the first line long enough to have cell
      `cellIndex` whose cell there equals `toMatch` ignoring case. */
  function FindLineStartingWith(lines: seq<Line>, toMatch: string, cellIndex: nat): (r: Option<nat>)
    ensures r.Some? ==> r.value < |lines| && |lines[r.value]| > cellIndex
                        && EqualsIgnoreCase(lines[r.value][cellIndex], toMatch)
    ensures r.Some? ==> forall k :: 0 <= k < r.value ==>
                          !(|lines[k]| > cellIndex && EqualsIgnoreCase(lines[k][cellIndex], toMatch))
    ensures r.None? <==> forall k :: 0 <= k < |lines| ==>
                           !(|lines[k]| > cellIndex && EqualsIgnoreCase(lines[k][cellIndex], toMatch))
  {
    if |lines| == 0 then None
    else if |lines[0]| > cellIndex && EqualsIgnoreCase(lines[0][cellIndex], toMatch) then Some(0)
    else match FindLineStartingWith(lines[1..], toMatch, cellIndex)
      case None => None
      case Some(k) => Some(k + 1)
  }

  /** `findHighElement`: the first indexed element whose qualified name
      equals the result node's full name ignoring case. */
  function FindHighElement(index: seq<HE.Entry>, fullName: string): (r: Option<nat>)
    ensures r.Some? ==> r.value < |index| && EqualsIgnoreCase(index[r.value].qualifiedName, fullName)
    ensures r.Some? ==> forall k :: 0 <= k < r.value ==> !EqualsIgnoreCase(index[k].qualifiedName, fullName)
    ensures r.None? <==> forall k :: 0 <= k < |index| ==> !EqualsIgnoreCase(index[k].qualifiedName, fullName)
  {
    if |index| == 0 then None
    else if EqualsIgnoreCase(index[0].qualifiedName, fullName) then Some(0)
    else match FindHighElement(index[1..], fullName)
      case None => None
      case Some(k) => Some(k + 1)
  }

  /** `findHighElementAndAssignOutput`: the slot of the element found, and
      only of it, is pointed at the result node. */
  function FindAndAssignOutput(index: seq<HE.Entry>, fr: Frame, st: Correlation): (r: Correlation)
    requires !fr.element.OtherElement?
    ensures r.edits == st.edits
    ensures FindHighElement(index, fr.element.fullName).None? ==> r == st
    ensures FindHighElement(index, fr.element.fullName).Some? ==>
              r.effects == st.effects + [Effect.AssignOutput(index[FindHighElement(index, fr.element.fullName).value].id, fr.path)]
  {
    match FindHighElement(index, fr.element.fullName)
    case None => st
    case Some(j) => st.(effects := st.effects + [Effect.AssignOutput(index[j].id, fr.path)])
  }

  // ---------------------------------------------------------------------
  // Record types

  predicate IsSetupOrTeardown(kind: KeywordType) {
    kind in {Setup, SetupRf3, Teardown, TeardownRf3}
  }

  /** The scenario row that declares a setup or teardown explicitly. */
  function ExplicitRowMarker(kind: KeywordType): (marker: string)
    ensures kind in {Setup, SetupRf3} ==> marker == "[Setup]"
    ensures kind in {Teardown, TeardownRf3} ==> marker == "[Teardown]"
    ensures !IsSetupOrTeardown(kind) ==> marker == ""
  {
    match kind
    case Setup => "[Setup]"
    case SetupRf3 => "[Setup]"
    case Teardown => "[Teardown]"
    case TeardownRf3 => "[Teardown]"
    case _ => ""
  }

  /** The type an inherited record is re-tagged with. */
  function TestLevelType(kind: KeywordType): (r: KeywordType)
    ensures kind in {Setup, SetupRf3} ==> r == TestSetup
    ensures kind in {Teardown, TeardownRf3} ==> r == TestTeardown
    ensures !IsSetupOrTeardown(kind) ==> r == kind
  {
    match kind
    case Setup => TestSetup
    case SetupRf3 => TestSetup
    case Teardown => TestTeardown
    case TeardownRf3 => TestTeardown
    case _ => kind
  }

  /** The suite setting that declares the record for every test. */
  function SettingKey(kind: KeywordType): (key: string)
    ensures kind in {Teardown, TestTeardown} ==> key == "Test Teardown"
    ensures kind !in {Teardown, TestTeardown} ==> key == "Test Setup"
  {
    if kind == Teardown || kind == TestTeardown then "Test Teardown" else "Test Setup"
  }

  predicate IsFailingSetupTeardown(k: Keyword) {
    k.status == Failed && IsSetupOrTeardown(k.kind)
  }

  /** The failing setup and teardown records of a test's body, in order.
      (The Java accessor is outside this model; this is its assumed meaning.) */
  function FailingSetupTeardown(body: seq<Keyword>): (r: seq<Keyword>)
    ensures forall k :: 0 <= k < |r| ==> IsFailingSetupTeardown(r[k])
    ensures forall x :: multiset(r)[x] == if IsFailingSetupTeardown(x) then multiset(body)[x] else 0
  {
    if |body| == 0 then []
    else
      assert body == [body[0]] + body[1..];
      if IsFailingSetupTeardown(body[0]) then [body[0]] + FailingSetupTeardown(body[1..])
      else FailingSetupTeardown(body[1..])
  }

  predicate AnyFailed(kws: seq<Keyword>) {
    exists k :: 0 <= k < |kws| && kws[k].status == Failed
  }

  predicate HasType(kws: seq<Keyword>, kind: KeywordType) {
    exists k :: 0 <= k < |kws| && kws[k].kind == kind
  }

  /** `List.remove(Object)`: drops the first occurrence, if any. */
  function RemoveFirst(s: seq<Keyword>, x: Keyword): (r: seq<Keyword>)
    ensures multiset(r) == multiset(s) - multiset{x}
    ensures x !in s ==> r == s
  {
    if |s| == 0 then s
    else if s[0] == x then
      assert s == [s[0]] + s[1..];
      s[1..]
    else
      assert s == [s[0]] + s[1..];
      [s[0]] + RemoveFirst(s[1..], x)
  }

  // ---------------------------------------------------------------------
  // The upward walk

  /** The walk goes on past this ancestor: it is a result suite matched to a
      project suite that has a Settings section without the setting and no
      record of this type yet. */
  predicate Continues(index: seq<HE.Entry>, fr: Frame, kind: KeywordType, edits: map<Frame, seq<Keyword>>) {
    && fr.element.OutputSuite?
    && var found := FindHighElement(index, fr.element.fullName);
    && found.Some?
    && index[found.value].kind.Suite?
    && !HasType(Current(edits, fr), kind)
    && index[found.value].kind.settings.Some?
    && FindLineStartingWith(index[found.value].kind.settings.value, SettingKey(kind), 0).None?
  }

  /** This ancestor takes the record: as above, but its Settings section has
      a line whose first cell is the setting. */
  predicate Receives(index: seq<HE.Entry>, fr: Frame, kind: KeywordType, edits: map<Frame, seq<Keyword>>) {
    && fr.element.OutputSuite?
    && var found := FindHighElement(index, fr.element.fullName);
    && found.Some?
    && index[found.value].kind.Suite?
    && !HasType(Current(edits, fr), kind)
    && index[found.value].kind.settings.Some?
    && FindLineStartingWith(index[found.value].kind.settings.value, SettingKey(kind), 0).Some?
  }

  function MatchedId(index: seq<HE.Entry>, fr: Frame): Id
    requires !fr.element.OtherElement? && FindHighElement(index, fr.element.fullName).Some?
  {
    index[FindHighElement(index, fr.element.fullName).value].id
  }

  /** `findAndAttachFailingTestSetupTeardownToSuite`: `ancestors` are the
      result-tree ancestors of the test, nearest first. */
  function AttachToSuite(index: seq<HE.Entry>, ancestors: seq<Frame>, k: Keyword, st: Correlation): (r: Correlation)
    ensures AppendsTo(st, r)
    decreases |ancestors|
  {
    if |ancestors| == 0 || !ancestors[0].element.OutputSuite? then st
    else
      var fr := ancestors[0];
      var st1 := FindAndAssignOutput(index, fr, st);
      match FindHighElement(index, fr.element.fullName)
      case None => st1
      case Some(j) =>
        if !index[j].kind.Suite? then st1
        else if HasType(Current(st1.edits, fr), k.kind) then st1
        else match index[j].kind.settings
          case None => st1
          case Some(settings) =>
            if FindLineStartingWith(settings, SettingKey(k.kind), 0).None? then
              AttachToSuite(index, ancestors[1..], k, st1)
            else
              st1.(edits := st1.edits[fr := Current(st1.edits, fr) + [k]],
                   effects := st1.effects + [MarkFailing(index[j].id)])
  }

  // ---------------------------------------------------------------------
  // preprocess

  /** One failing record of a test whose project element is a scenario with
      these lines: kept when the scenario declares it explicitly in cell 1,
      otherwise re-tagged, removed from the test and walked upwards. */
  function PromoteOne(index: seq<HE.Entry>, ancestors: seq<Frame>, test: Frame, lines: seq<Line>,
                      k: Keyword, st: Correlation): (r: Correlation)
    ensures AppendsTo(st, r)
  {
    if FindLineStartingWith(lines, ExplicitRowMarker(k.kind), 1).Some? then st
    else
      var retagged := k.(kind := TestLevelType(k.kind));
      var st1 := st.(edits := st.edits[test := RemoveFirst(Current(st.edits, test), k)]);
      AttachToSuite(index, ancestors, retagged, st1)
  }

  function PromoteAll(index: seq<HE.Entry>, ancestors: seq<Frame>, test: Frame, lines: seq<Line>,
                      failing: seq<Keyword>, i: nat, st: Correlation): (r: Correlation)
    ensures AppendsTo(st, r)
    decreases |failing| - i
  {
    if i >= |failing| then st
    else PromoteAll(index, ancestors, test, lines, failing, i + 1,
                    PromoteOne(index, ancestors, test, lines, failing[i], st))
  }

  /** The header step for a result suite: assign the slot, and mark the
      element failing when one of the suite's own records failed. */
  function SuiteStep(index: seq<HE.Entry>, fr: Frame, st: Correlation): (r: Correlation)
    requires fr.element.OutputSuite?
    ensures r.edits == st.edits
    ensures var found := FindHighElement(index, fr.element.fullName);
      r.effects == st.effects +
        (if found.None? then []
         else [Effect.AssignOutput(index[found.value].id, fr.path)]
              + (if AnyFailed(Current(st.edits, fr)) then [MarkFailing(index[found.value].id)] else []))
  {
    var st1 := FindAndAssignOutput(index, fr, st);
    match FindHighElement(index, fr.element.fullName)
    case None => st1
    case Some(j) =>
      if AnyFailed(Current(st1.edits, fr)) then st1.(effects := st1.effects + [MarkFailing(index[j].id)])
      else st1
  }

  /** The header step for a test: assign the slot and, for a failing test
      matched to a scenario, promote its failing records. */
  function TestStep(index: seq<HE.Entry>, ancestors: seq<Frame>, fr: Frame, st: Correlation): (r: Correlation)
    requires fr.element.Test?
    ensures AppendsTo(st, r)
    ensures fr.element.status != Failed ==> r == FindAndAssignOutput(index, fr, st)
    ensures var found := FindHighElement(index, fr.element.fullName);
      (found.None? || !index[found.value].kind.Scenario?) ==> r == FindAndAssignOutput(index, fr, st)
    ensures |FailingSetupTeardown(Current(st.edits, fr))| == 0 ==> r == FindAndAssignOutput(index, fr, st)
  {
    var st1 := FindAndAssignOutput(index, fr, st);
    var found := FindHighElement(index, fr.element.fullName);
    if fr.element.status != Failed || found.None? || !index[found.value].kind.Scenario? then st1
    else
      var failing := FailingSetupTeardown(Current(st1.edits, fr));
      if |failing| == 0 then st1
      else
        var r := PromoteAll(index, ancestors, fr, index[found.value].kind.lines, failing, 0, st1);
        AppendsTrans(st, st1, r);
        r
  }

  /** `preprocess(parent, element)`. A suite's children are visited twice:
      once after its header step and once more through the final `else`. */
  function Preprocess(index: seq<HE.Entry>, ancestors: seq<Frame>, fr: Frame, st: Correlation): (r: Correlation)
    ensures AppendsTo(st, r)
    decreases fr.element, 2, 0
  {
    match fr.element
    case OutputSuite(_, _, _) =>
      var st1 := SuiteStep(index, fr, st);
      var st2 := PreprocessAll(index, [fr] + ancestors, fr, 0, st1);
      PreprocessAll(index, [fr] + ancestors, fr, 0, st2)
    case Test(_, _, _, _) =>
      PreprocessAll(index, [fr] + ancestors, fr, 0, TestStep(index, ancestors, fr, st))
    case OtherElement(_) =>
      PreprocessAll(index, [fr] + ancestors, fr, 0, st)
  }

  /** Visits the children of `parent` from the `i`-th on; `ancestors` starts
      with `parent`. */
  function PreprocessAll(index: seq<HE.Entry>, ancestors: seq<Frame>, parent: Frame, i: nat, st: Correlation): (r: Correlation)
    ensures AppendsTo(st, r)
    decreases parent.element, 1, |parent.element.elements| - i
  {
    if i >= |parent.element.elements| then st
    else PreprocessAll(index, ancestors, parent, i + 1, Preprocess(index, ancestors, ChildFrame(parent, i), st))
  }

  /** One pass over a whole result document, starting from its root suite.
      Every slot assignment it logs names an element whose qualified name
      matches, ignoring case, the full name of the suite or test at the
      logged position. */
  function Correlate(index: seq<HE.Entry>, result: OutputElement): (r: Correlation)
    ensures Sound(index, result, r.effects)
  {
    PreprocessSound(index, result, [], Frame([], result), Correlation(map[], []));
    Preprocess(index, [], Frame([], result), Correlation(map[], []))
  }

  // ---------------------------------------------------------------------
  // Slot soundness: what the logged slot assignments point at

  /** The frame is the node found at its path in the result document. */
  predicate FrameIn(result: OutputElement, fr: Frame) {
    NodeAt(result, fr.path) == Some(fr.element)
  }

  predicate AllIn(result: OutputElement, frames: seq<Frame>) {
    forall k :: 0 <= k < |frames| ==> FrameIn(result, frames[k])
  }

  /** The slot of `id` may point at `path`: a suite or test sits there whose
      full name matches, ignoring case, an indexed element with that id. */
  predicate SlotMatches(index: seq<HE.Entry>, result: OutputElement, id: Id, path: Path) {
    && NodeAt(result, path).Some?
    && !NodeAt(result, path).value.OtherElement?
    && exists j :: 0 <= j < |index| && index[j].id == id
                   && EqualsIgnoreCase(index[j].qualifiedName, NodeAt(result, path).value.fullName)
  }

  predicate Sound(index: seq<HE.Entry>, result: OutputElement, effects: seq<Effect>) {
    forall e :: e in effects && e.AssignOutput? ==> SlotMatches(index, result, e.id, e.path)
  }

  lemma {:induction false} NodeAtChild(root: OutputElement, p: Path, n: OutputElement, i: nat)
    requires NodeAt(root, p) == Some(n) && i < |n.elements|
    ensures NodeAt(root, p + [i]) == Some(n.elements[i])
    decreases |p|
  {
    if |p| == 0 {
      assert p + [i] == [i];
      assert NodeAt(root, [i]) == NodeAt(root.elements[i], []);
    } else {
      assert (p + [i])[1..] == p[1..] + [i];
      NodeAtChild(root.elements[p[0]], p[1..], n, i);
    }
  }

  lemma ChildIn(result: OutputElement, parent: Frame, i: nat)
    requires FrameIn(result, parent) && i < |parent.element.elements|
    ensures FrameIn(result, ChildFrame(parent, i))
  {
    NodeAtChild(result, parent.path, parent.element, i);
  }

  lemma AllInCons(result: OutputElement, fr: Frame, frames: seq<Frame>)
    requires FrameIn(result, fr) && AllIn(result, frames)
    ensures AllIn(result, [fr] + frames)
  {
    assert forall k :: 1 <= k < |frames| + 1 ==> ([fr] + frames)[k] == frames[k - 1];
  }

  /** Adding effects that assign nothing, or that assign a matching slot,
      keeps a sound log sound. */
  lemma AppendSound(index: seq<HE.Entry>, result: OutputElement, effects: seq<Effect>, e: Effect)
    requires Sound(index, result, effects)
    requires e.AssignOutput? ==> SlotMatches(index, result, e.id, e.path)
    ensures Sound(index, result, effects + [e])
  {
    forall x | x in effects + [e] && x.AssignOutput?
      ensures SlotMatches(index, result, x.id, x.path)
    {
      if x !in effects {
        assert x == e;
      }
    }
  }

  /** `findHighElementAndAssignOutput` assigns a slot only to the element
      whose name matches the node. */
  lemma AssignSound(index: seq<HE.Entry>, result: OutputElement, fr: Frame, st: Correlation)
    requires !fr.element.OtherElement? && FrameIn(result, fr)
    requires Sound(index, result, st.effects)
    ensures Sound(index, result, FindAndAssignOutput(index, fr, st).effects)
  {
    match FindHighElement(index, fr.element.fullName)
    case None =>
    case Some(j) =>
      AppendSound(index, result, st.effects, Effect.AssignOutput(index[j].id, fr.path));
  }

  lemma {:induction false} AttachSound(index: seq<HE.Entry>, result: OutputElement, ancestors: seq<Frame>,
                                       k: Keyword, st: Correlation)
    requires AllIn(result, ancestors) && Sound(index, result, st.effects)
    ensures Sound(index, result, AttachToSuite(index, ancestors, k, st).effects)
    decreases |ancestors|
  {
    if |ancestors| > 0 && ancestors[0].element.OutputSuite? {
      var fr := ancestors[0];
      var st1 := FindAndAssignOutput(index, fr, st);
      AssignSound(index, result, fr, st);
      match FindHighElement(index, fr.element.fullName)
      case None =>
      case Some(j) =>
        if index[j].kind.Suite? && !HasType(Current(st1.edits, fr), k.kind) && index[j].kind.settings.Some? {
          if FindLineStartingWith(index[j].kind.settings.value, SettingKey(k.kind), 0).None? {
            assert forall l :: 0 <= l < |ancestors| - 1 ==> ancestors[1..][l] == ancestors[l + 1];
            AttachSound(index, result, ancestors[1..], k, st1);
          } else {
            AppendSound(index, result, st1.effects, MarkFailing(index[j].id));
          }
        }
    }
  }

  lemma {:induction false} PromoteAllSound(index: seq<HE.Entry>, result: OutputElement, ancestors: seq<Frame>,
                                           test: Frame, lines: seq<Line>, failing: seq<Keyword>, i: nat, st: Correlation)
    requires AllIn(result, ancestors) && Sound(index, result, st.effects)
    ensures Sound(index, result, PromoteAll(index, ancestors, test, lines, failing, i, st).effects)
    decreases |failing| - i
  {
    if i < |failing| {
      var k := failing[i];
      if FindLineStartingWith(lines, ExplicitRowMarker(k.kind), 1).None? {
        var st1 := st.(edits := st.edits[test := RemoveFirst(Current(st.edits, test), k)]);
        AttachSound(index, result, ancestors, k.(kind := TestLevelType(k.kind)), st1);
      }
      PromoteAllSound(index, result, ancestors, test, lines, failing, i + 1,
                      PromoteOne(index, ancestors, test, lines, k, st));
    }
  }

  lemma StepSound(index: seq<HE.Entry>, result: OutputElement, ancestors: seq<Frame>, fr: Frame, st: Correlation)
    requires !fr.element.OtherElement? && FrameIn(result, fr) && AllIn(result, ancestors)
    requires Sound(index, result, st.effects)
    ensures fr.element.OutputSuite? ==> Sound(index, result, SuiteStep(index, fr, st).effects)
    ensures fr.element.Test? ==> Sound(index, result, TestStep(index, ancestors, fr, st).effects)
  {
    var st1 := FindAndAssignOutput(index, fr, st);
    AssignSound(index, result, fr, st);
    match FindHighElement(index, fr.element.fullName)
    case None =>
    case Some(j) =>
      if fr.element.OutputSuite? {
        AppendSound(index, result, st1.effects, MarkFailing(index[j].id));
      } else {
        var failing := FailingSetupTeardown(Current(st1.edits, fr));
        if index[j].kind.Scenario? {
          PromoteAllSound(index, result, ancestors, fr, index[j].kind.lines, failing, 0, st1);
        }
      }
  }

  lemma {:induction false} PreprocessSound(index: seq<HE.Entry>, result: OutputElement, ancestors: seq<Frame>,
                                           fr: Frame, st: Correlation)
    requires FrameIn(result, fr) && AllIn(result, ancestors) && Sound(index, result, st.effects)
    ensures Sound(index, result, Preprocess(index, ancestors, fr, st).effects)
    decreases fr.element, 2, 0
  {
    var inner := [fr] + ancestors;
    AllInCons(result, fr, ancestors);
    match fr.element
    case OutputSuite(_, _, _) =>
      var st1 := SuiteStep(index, fr, st);
      StepSound(index, result, ancestors, fr, st);
      PreprocessAllSound(index, result, inner, fr, 0, st1);
      PreprocessAllSound(index, result, inner, fr, 0, PreprocessAll(index, inner, fr, 0, st1));
    case Test(_, _, _, _) =>
      StepSound(index, result, ancestors, fr, st);
      PreprocessAllSound(index, result, inner, fr, 0, TestStep(index, ancestors, fr, st));
    case OtherElement(_) =>
      PreprocessAllSound(index, result, inner, fr, 0, st);
  }

  lemma {:induction false} PreprocessAllSound(index: seq<HE.Entry>, result: OutputElement, ancestors: seq<Frame>,
                                              parent: Frame, i: nat, st: Correlation)
    requires FrameIn(result, parent) && AllIn(result, ancestors) && Sound(index, result, st.effects)
    ensures Sound(index, result, PreprocessAll(index, ancestors, parent, i, st).effects)
    decreases parent.element, 1, |parent.element.elements| - i
  {
    if i < |parent.element.elements| {
      var child := ChildFrame(parent, i);
      ChildIn(result, parent, i);
      PreprocessSound(index, result, ancestors, child, st);
      PreprocessAllSound(index, result, ancestors, parent, i + 1, Preprocess(index, ancestors, child, st));
    }
  }


  // ---------------------------------------------------------------------
  // Effects on the project tree, parseOutput and cleanup

  function ApplyEffect(m: SourceMarks, e: Effect): SourceMarks {
    match e
    case AssignOutput(id, path) => m.(outputElement := m.outputElement[id := path])
    case MarkFailing(id) => m.(failing := m.failing + {id})
  }

  /** Replays the log in order. Effects only ever add slots and marks. */
  function ApplyEffects(m: SourceMarks, effects: seq<Effect>): (r: SourceMarks)
    ensures m.failing <= r.failing
    ensures m.outputElement.Keys <= r.outputElement.Keys
    decreases |effects|
  {
    if |effects| == 0 then m else ApplyEffects(ApplyEffect(m, effects[0]), effects[1..])
  }

  function EffectIds(effects: seq<Effect>): set<Id> {
    set k | 0 <= k < |effects| :: effects[k].id
  }

  function MarkedIds(effects: seq<Effect>): set<Id> {
    set k | 0 <= k < |effects| && effects[k].MarkFailing? :: effects[k].id
  }

  function AssignedIds(effects: seq<Effect>): set<Id> {
    set k | 0 <= k < |effects| && effects[k].AssignOutput? :: effects[k].id
  }

  lemma EffectIdsCons(effects: seq<Effect>)
    requires |effects| > 0
    ensures EffectIds(effects) == {effects[0].id} + EffectIds(effects[1..])
  {
    var tail := effects[1..];
    forall id | id in EffectIds(effects) ensures id in {effects[0].id} + EffectIds(tail) {
      var k :| 0 <= k < |effects| && effects[k].id == id;
      if k > 0 { assert tail[k - 1] == effects[k]; }
    }
    forall id | id in EffectIds(tail) ensures id in EffectIds(effects) {
      var k :| 0 <= k < |tail| && tail[k].id == id;
      assert effects[k + 1] == tail[k];
    }
  }

  lemma MarkedIdsCons(effects: seq<Effect>)
    requires |effects| > 0
    ensures MarkedIds(effects) == (if effects[0].MarkFailing? then {effects[0].id} else {}) + MarkedIds(effects[1..])
  {
    var tail := effects[1..];
    forall id | id in MarkedIds(effects)
      ensures id in (if effects[0].MarkFailing? then {effects[0].id} else {}) + MarkedIds(tail)
    {
      var k :| 0 <= k < |effects| && effects[k].MarkFailing? && effects[k].id == id;
      if k > 0 { assert tail[k - 1] == effects[k]; }
    }
    forall id | id in MarkedIds(tail) ensures id in MarkedIds(effects) {
      var k :| 0 <= k < |tail| && tail[k].MarkFailing? && tail[k].id == id;
      assert effects[k + 1] == tail[k];
    }
  }

  lemma AssignedIdsCons(effects: seq<Effect>)
    requires |effects| > 0
    ensures AssignedIds(effects) == (if effects[0].AssignOutput? then {effects[0].id} else {}) + AssignedIds(effects[1..])
  {
    var tail := effects[1..];
    forall id | id in AssignedIds(effects)
      ensures id in (if effects[0].AssignOutput? then {effects[0].id} else {}) + AssignedIds(tail)
    {
      var k :| 0 <= k < |effects| && effects[k].AssignOutput? && effects[k].id == id;
      if k > 0 { assert tail[k - 1] == effects[k]; }
    }
    forall id | id in AssignedIds(tail) ensures id in AssignedIds(effects) {
      var k :| 0 <= k < |tail| && tail[k].AssignOutput? && tail[k].id == id;
      assert effects[k + 1] == tail[k];
    }
  }

  /** Applying effects sets a slot or adds a failing mark only for the
      elements the effects name; the failing marks added are exactly those
      the effects carry. */
  lemma {:induction false} ApplyEffectsFrame(m: SourceMarks, effects: seq<Effect>)
    ensures var r := ApplyEffects(m, effects);
      && r.failing == m.failing + MarkedIds(effects)
      && r.outputElement.Keys == m.outputElement.Keys + AssignedIds(effects)
      && forall id :: id !in EffectIds(effects) && id in m.outputElement ==>
                        id in r.outputElement && r.outputElement[id] == m.outputElement[id]
    decreases |effects|
  {
    if |effects| > 0 {
      ApplyEffectsFrame(ApplyEffect(m, effects[0]), effects[1..]);
      EffectIdsCons(effects);
      MarkedIdsCons(effects);
      AssignedIdsCons(effects);
    }
  }

  /** Reference definition, read from the end of the log: the path of the
      last assignment to the slot of `id`, if there is one. */
  function LastAssigned(effects: seq<Effect>, id: Id): (r: Option<Path>)
    ensures r.Some? ==> Effect.AssignOutput(id, r.value) in effects
    decreases |effects|
  {
    if |effects| == 0 then None
    else
      var last := effects[|effects| - 1];
      if last.AssignOutput? && last.id == id then Some(last.path)
      else LastAssigned(effects[..|effects| - 1], id)
  }

  lemma {:induction false} LastAssignedIffAssigned(effects: seq<Effect>, id: Id)
    ensures LastAssigned(effects, id).Some? <==> id in AssignedIds(effects)
    decreases |effects|
  {
    if |effects| > 0 {
      var init := effects[..|effects| - 1];
      var last := effects[|effects| - 1];
      LastAssignedIffAssigned(init, id);
      if last.AssignOutput? && last.id == id {
        assert effects[|effects| - 1].AssignOutput? && effects[|effects| - 1].id == id;
      } else {
        if id in AssignedIds(effects) {
          var k :| 0 <= k < |effects| && effects[k].AssignOutput? && effects[k].id == id;
          assert init[k] == effects[k];
        }
        if id in AssignedIds(init) {
          var k :| 0 <= k < |init| && init[k].AssignOutput? && init[k].id == id;
          assert effects[k] == init[k];
        }
      }
    }
  }

  lemma {:induction false} ApplyEffectsSnoc(m: SourceMarks, effects: seq<Effect>, e: Effect)
    ensures ApplyEffects(m, effects + [e]) == ApplyEffect(ApplyEffects(m, effects), e)
    decreases |effects|
  {
    if |effects| == 0 {
      assert effects + [e] == [e];
    } else {
      assert (effects + [e])[1..] == effects[1..] + [e];
      ApplyEffectsSnoc(ApplyEffect(m, effects[0]), effects[1..], e);
    }
  }

  /** Each slot the effects assign ends up holding the path of the last
      assignment to it, which is one of the logged assignments; a slot no
      assignment names keeps its value (failing marks never touch slots). */
  lemma {:induction false} ApplyEffectsLastAssignment(m: SourceMarks, effects: seq<Effect>)
    ensures var r := ApplyEffects(m, effects);
      && (forall id :: id in AssignedIds(effects) ==>
            && id in r.outputElement
            && LastAssigned(effects, id) == Some(r.outputElement[id])
            && Effect.AssignOutput(id, r.outputElement[id]) in effects)
      && (forall id :: id in m.outputElement && id !in AssignedIds(effects) ==>
            id in r.outputElement && r.outputElement[id] == m.outputElement[id])
    decreases |effects|
  {
    if |effects| > 0 {
      var init := effects[..|effects| - 1];
      var last := effects[|effects| - 1];
      assert effects == init + [last];
      ApplyEffectsLastAssignment(m, init);
      ApplyEffectsSnoc(m, init, last);
      forall id
        ensures LastAssigned(effects, id).Some? <==> id in AssignedIds(effects)
        ensures LastAssigned(init, id).Some? <==> id in AssignedIds(init)
      {
        LastAssignedIffAssigned(effects, id);
        LastAssignedIffAssigned(init, id);
      }
    }
  }

  function SuiteIds(index: seq<HE.Entry>): set<Id> {
    set k | 0 <= k < |index| && index[k].kind.Suite? :: index[k].id
  }

  /** `parseOutput` with the file already read into `result`: nothing
      happens when output parsing is disabled; otherwise one correlation
      pass over the project elements below `root` sets the slots of the
      elements it matches, each to the last result node it assigned, whose
      full name matches the element's qualified name ignoring case, and
      adds the failing marks it logged. */
  function ParseOutput(disabled: bool, root: HE.HighElement, result: OutputElement, m: SourceMarks): (r: SourceMarks)
    ensures disabled ==> r == m
    ensures !disabled ==> r.failing == m.failing + MarkedIds(Correlate(HE.SearchIndex(root), result).effects)
    ensures !disabled ==> r.outputElement.Keys == m.outputElement.Keys + AssignedIds(Correlate(HE.SearchIndex(root), result).effects)
    ensures !disabled ==> forall id :: id in AssignedIds(Correlate(HE.SearchIndex(root), result).effects) ==>
              && id in r.outputElement
              && LastAssigned(Correlate(HE.SearchIndex(root), result).effects, id) == Some(r.outputElement[id])
              && Effect.AssignOutput(id, r.outputElement[id]) in Correlate(HE.SearchIndex(root), result).effects
              && SlotMatches(HE.SearchIndex(root), result, id, r.outputElement[id])
    ensures !disabled ==> forall id :: id in m.outputElement && id !in AssignedIds(Correlate(HE.SearchIndex(root), result).effects) ==>
              id in r.outputElement && r.outputElement[id] == m.outputElement[id]
  {
    if disabled then m
    else
      var effects := Correlate(HE.SearchIndex(root), result).effects;
      ApplyEffectsFrame(m, effects);
      ApplyEffectsLastAssignment(m, effects);
      ApplyEffects(m, effects)
  }

  /** `cleanup`: nothing happens when output parsing is disabled; otherwise
      every element below `root` loses its result node, and the suites among
      them get their normal icon back. Other elements keep their marks. */
  function Cleanup(disabled: bool, root: HE.HighElement, m: SourceMarks): (r: SourceMarks)
    ensures disabled ==> r == m
    ensures !disabled ==> forall id :: id in root.childrenRecursively ==> id !in r.outputElement
    ensures !disabled ==> forall id :: id in m.outputElement && id !in root.childrenRecursively ==>
                            id in r.outputElement && r.outputElement[id] == m.outputElement[id]
    ensures !disabled ==> r.outputElement.Keys <= m.outputElement.Keys
    ensures !disabled ==> forall id :: id in r.failing <==> id in m.failing && id !in SuiteIds(HE.SearchIndex(root))
  {
    if disabled then m
    else SourceMarks(map id | id in m.outputElement && id !in root.childrenRecursively :: m.outputElement[id],
                     m.failing - SuiteIds(HE.SearchIndex(root)))
  }
}
