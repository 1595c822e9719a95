/** Properties of the output correlator: where an inherited failing record
    ends up, what a test keeps, that the second traversal of a suite's
    children finds nothing left to do, and that cleanup undoes a pass. */
module CorrelationProperties {
  import opened Text
  import HE = HighElements
  import opened OutputParser

  // ---------------------------------------------------------------------
  // Small facts about the effect log

  lemma AppendsKeeps(a: Correlation, b: Correlation, e: Effect)
    requires AppendsTo(a, b) && e in a.effects
    ensures e in b.effects
  {
    var k :| 0 <= k < |a.effects| && a.effects[k] == e;
    assert b.effects[..|a.effects|][k] == e;
  }

  function IndexIds(index: seq<HE.Entry>): set<Id> {
    set k | 0 <= k < |index| :: index[k].id
  }

  /** Every element an effect names is one of the indexed elements. */
  predicate FromIndex(index: seq<HE.Entry>, effects: seq<Effect>) {
    forall e :: e in effects ==> e.id in IndexIds(index)
  }

  /** The frames whose keyword list a pass may change between `s1` and
      `s2`: a result suite whose matched element `s2` marks failing, or a
      test at or below path `p`. */
  predicate ChangeAllowed(index: seq<HE.Entry>, p: Path, g: Frame, s2: Correlation) {
    || (g.element.OutputSuite? && FindHighElement(index, g.element.fullName).Some?
        && MarkFailing(MatchedId(index, g)) in s2.effects)
    || (g.element.Test? && p <= g.path)
  }

  ghost predicate OnlyExpected(index: seq<HE.Entry>, p: Path, s1: Correlation, s2: Correlation) {
    && AppendsTo(s1, s2)
    && (FromIndex(index, s1.effects) ==> FromIndex(index, s2.effects))
    && forall g :: Current(s2.edits, g) != Current(s1.edits, g) ==> ChangeAllowed(index, p, g, s2)
  }

  lemma ExpectedTrans(index: seq<HE.Entry>, p: Path, s1: Correlation, s2: Correlation, s3: Correlation)
    requires OnlyExpected(index, p, s1, s2) && OnlyExpected(index, p, s2, s3)
    ensures OnlyExpected(index, p, s1, s3)
  {
    AppendsTrans(s1, s2, s3);
    forall g | Current(s3.edits, g) != Current(s1.edits, g)
      ensures ChangeAllowed(index, p, g, s3)
    {
      if Current(s3.edits, g) == Current(s2.edits, g) {
        if g.element.OutputSuite? && FindHighElement(index, g.element.fullName).Some?
           && MarkFailing(MatchedId(index, g)) in s2.effects {
          AppendsKeeps(s2, s3, MarkFailing(MatchedId(index, g)));
        }
      }
    }
  }

  lemma ExpectedWiden(index: seq<HE.Entry>, p: Path, q: Path, s1: Correlation, s2: Correlation)
    requires OnlyExpected(index, q, s1, s2) && p <= q
    ensures OnlyExpected(index, p, s1, s2)
  {
    forall g | Current(s2.edits, g) != Current(s1.edits, g)
      ensures ChangeAllowed(index, p, g, s2)
    {
      if g.element.Test? && q <= g.path {
        assert g.path[..|p|] == q[..|p|];
      }
    }
  }

  // ---------------------------------------------------------------------
  // The upward walk

  /** The walk changes nothing but the list of the one suite that receives
      the record, and marks that suite's element failing when it does. */
  lemma {:induction false} AttachExpected(index: seq<HE.Entry>, ancestors: seq<Frame>, k: Keyword, st: Correlation, p: Path)
    ensures OnlyExpected(index, p, st, AttachToSuite(index, ancestors, k, st))
    decreases |ancestors|
  {
    var r := AttachToSuite(index, ancestors, k, st);
    if |ancestors| > 0 && ancestors[0].element.OutputSuite? {
      var fr := ancestors[0];
      var st1 := FindAndAssignOutput(index, fr, st);
      match FindHighElement(index, fr.element.fullName)
      case None =>
      case Some(j) =>
        if index[j].kind.Suite? && !HasType(Current(st1.edits, fr), k.kind) && index[j].kind.settings.Some? {
          if FindLineStartingWith(index[j].kind.settings.value, SettingKey(k.kind), 0).None? {
            AttachExpected(index, ancestors[1..], k, st1, p);
            ExpectedTrans(index, p, st, st1, r);
          } else {
            assert r.effects == st1.effects + [MarkFailing(index[j].id)];
            forall g | Current(r.edits, g) != Current(st.edits, g)
              ensures ChangeAllowed(index, p, g, r)
            {
              assert g == fr;
            }
          }
        }
    }
  }

  lemma AttachStepContinues(index: seq<HE.Entry>, ancestors: seq<Frame>, k: Keyword, st: Correlation)
    requires |ancestors| > 0 && Continues(index, ancestors[0], k.kind, st.edits)
    ensures AttachToSuite(index, ancestors, k, st)
            == AttachToSuite(index, ancestors[1..], k, FindAndAssignOutput(index, ancestors[0], st))
  {
  }

  lemma AttachStepReceives(index: seq<HE.Entry>, ancestors: seq<Frame>, k: Keyword, st: Correlation)
    requires |ancestors| > 0 && Receives(index, ancestors[0], k.kind, st.edits)
    ensures var fr := ancestors[0];
      AttachToSuite(index, ancestors, k, st)
      == FindAndAssignOutput(index, fr, st).(edits := st.edits[fr := Current(st.edits, fr) + [k]],
                                            effects := FindAndAssignOutput(index, fr, st).effects + [MarkFailing(MatchedId(index, fr))])
  {
  }

  lemma ContinuesShift(index: seq<HE.Entry>, ancestors: seq<Frame>, kind: KeywordType,
                       edits: map<Frame, seq<Keyword>>, m: nat)
    requires 0 < m < |ancestors|
    requires forall l :: 0 <= l < m ==> Continues(index, ancestors[l], kind, edits)
    ensures ancestors[1..][m - 1] == ancestors[m]
    ensures forall l :: 0 <= l < m - 1 ==> Continues(index, ancestors[1..][l], kind, edits)
  {
    forall l | 0 <= l < m - 1 ensures Continues(index, ancestors[1..][l], kind, edits) {
      assert ancestors[1..][l] == ancestors[l + 1];
    }
  }

  /** When some ancestor receives the record and every nearer one lets the
      walk go on, exactly that ancestor gets the record appended and its
      element is marked failing. */
  lemma {:induction false} AttachesToFirstReceiver(index: seq<HE.Entry>, ancestors: seq<Frame>, k: Keyword,
                                                   st: Correlation, m: nat)
    requires m < |ancestors|
    requires forall l :: 0 <= l < m ==> Continues(index, ancestors[l], k.kind, st.edits)
    requires Receives(index, ancestors[m], k.kind, st.edits)
    ensures var r := AttachToSuite(index, ancestors, k, st);
      && r.edits == st.edits[ancestors[m] := Current(st.edits, ancestors[m]) + [k]]
      && MarkFailing(MatchedId(index, ancestors[m])) in r.effects
    decreases m
  {
    var st1 := FindAndAssignOutput(index, ancestors[0], st);
    if m > 0 {
      AttachStepContinues(index, ancestors, k, st);
      ContinuesShift(index, ancestors, k.kind, st.edits, m);
      AttachesToFirstReceiver(index, ancestors[1..], k, st1, m - 1);
    } else {
      AttachStepReceives(index, ancestors, k, st);
    }
  }

  lemma AttachStepStops(index: seq<HE.Entry>, ancestors: seq<Frame>, k: Keyword, st: Correlation)
    requires |ancestors| > 0 && ancestors[0].element.OutputSuite?
    requires !Continues(index, ancestors[0], k.kind, st.edits) && !Receives(index, ancestors[0], k.kind, st.edits)
    ensures AttachToSuite(index, ancestors, k, st) == FindAndAssignOutput(index, ancestors[0], st)
  {
  }

  /** When no ancestor is reached that receives the record, the walk drops
      it: no keyword list changes and no element is marked failing. */
  lemma {:induction false} DropsWithoutReceiver(index: seq<HE.Entry>, ancestors: seq<Frame>, k: Keyword, st: Correlation)
    requires forall m :: 0 <= m < |ancestors| && (forall l :: 0 <= l < m ==> Continues(index, ancestors[l], k.kind, st.edits))
                         ==> !Receives(index, ancestors[m], k.kind, st.edits)
    ensures var r := AttachToSuite(index, ancestors, k, st);
      && r.edits == st.edits
      && forall j :: |st.effects| <= j < |r.effects| ==> r.effects[j].AssignOutput?
    decreases |ancestors|
  {
    if |ancestors| > 0 && ancestors[0].element.OutputSuite? {
      var st1 := FindAndAssignOutput(index, ancestors[0], st);
      assert !Receives(index, ancestors[0], k.kind, st.edits);
      if Continues(index, ancestors[0], k.kind, st.edits) {
        AttachStepContinues(index, ancestors, k, st);
        var tail := ancestors[1..];
        forall m | 0 <= m < |tail| && (forall l :: 0 <= l < m ==> Continues(index, tail[l], k.kind, st1.edits))
          ensures !Receives(index, tail[m], k.kind, st1.edits)
        {
          assert forall l :: 0 <= l < m + 1 ==> Continues(index, ancestors[l], k.kind, st.edits) by {
            forall l | 0 <= l < m + 1 ensures Continues(index, ancestors[l], k.kind, st.edits) {
              if l > 0 { assert ancestors[l] == tail[l - 1]; }
            }
          }
          assert tail[m] == ancestors[m + 1];
        }
        DropsWithoutReceiver(index, tail, k, st1);
        var r := AttachToSuite(index, tail, k, st1);
        forall j | |st.effects| <= j < |r.effects| ensures r.effects[j].AssignOutput? {
          if j < |st1.effects| {
            assert r.effects[j] == r.effects[..|st1.effects|][j];
          }
        }
      } else {
        AttachStepStops(index, ancestors, k, st);
      }
    }
  }

  /** Either the walk leaves every list alone, or exactly one ancestor that
      had no record of this type yet receives it: an ancestor never gets a
      second record of the same type from the walk. */
  lemma {:induction false} WalkOutcome(index: seq<HE.Entry>, ancestors: seq<Frame>, k: Keyword, st: Correlation)
    ensures var r := AttachToSuite(index, ancestors, k, st);
      || r.edits == st.edits
      || exists m :: 0 <= m < |ancestors| && Receives(index, ancestors[m], k.kind, st.edits)
                     && !HasType(Current(st.edits, ancestors[m]), k.kind)
                     && r.edits == st.edits[ancestors[m] := Current(st.edits, ancestors[m]) + [k]]
  {
    if m :| 0 <= m < |ancestors| && (forall l :: 0 <= l < m ==> Continues(index, ancestors[l], k.kind, st.edits))
           && Receives(index, ancestors[m], k.kind, st.edits) {
      AttachesToFirstReceiver(index, ancestors, k, st, m);
    } else {
      DropsWithoutReceiver(index, ancestors, k, st);
    }
  }

  // ---------------------------------------------------------------------
  // Promotion of one test's records

  /** A record the scenario declares explicitly stays with the test; any
      other is removed from the test once and walked upwards re-tagged. */
  lemma PromoteOneOutcome(index: seq<HE.Entry>, ancestors: seq<Frame>, test: Frame, lines: seq<Line>,
                          k: Keyword, st: Correlation)
    requires test.element.Test?
    ensures var r := PromoteOne(index, ancestors, test, lines, k, st);
      && (FindLineStartingWith(lines, ExplicitRowMarker(k.kind), 1).Some? ==> r == st)
      && (FindLineStartingWith(lines, ExplicitRowMarker(k.kind), 1).None? ==>
            && Current(r.edits, test) == RemoveFirst(Current(st.edits, test), k)
            && r == AttachToSuite(index, ancestors, k.(kind := TestLevelType(k.kind)),
                                  st.(edits := st.edits[test := RemoveFirst(Current(st.edits, test), k)])))
  {
    if FindLineStartingWith(lines, ExplicitRowMarker(k.kind), 1).None? {
      var st1 := st.(edits := st.edits[test := RemoveFirst(Current(st.edits, test), k)]);
      AttachExpected(index, ancestors, k.(kind := TestLevelType(k.kind)), st1, test.path + [0]);
    }
  }

  lemma PromoteOneExpected(index: seq<HE.Entry>, ancestors: seq<Frame>, test: Frame, lines: seq<Line>,
                           k: Keyword, st: Correlation)
    requires test.element.Test?
    ensures OnlyExpected(index, test.path, st, PromoteOne(index, ancestors, test, lines, k, st))
  {
    if FindLineStartingWith(lines, ExplicitRowMarker(k.kind), 1).None? {
      var st1 := st.(edits := st.edits[test := RemoveFirst(Current(st.edits, test), k)]);
      var r := AttachToSuite(index, ancestors, k.(kind := TestLevelType(k.kind)), st1);
      AttachExpected(index, ancestors, k.(kind := TestLevelType(k.kind)), st1, test.path);
      assert OnlyExpected(index, test.path, st, st1);
      ExpectedTrans(index, test.path, st, st1, r);
    }
  }

  /** The records of `s` the scenario does not declare explicitly. */
  function Promotable(s: seq<Keyword>, lines: seq<Line>): (r: seq<Keyword>)
    ensures forall x :: multiset(r)[x] ==
              if FindLineStartingWith(lines, ExplicitRowMarker(x.kind), 1).None? then multiset(s)[x] else 0
  {
    if |s| == 0 then []
    else
      assert s == [s[0]] + s[1..];
      if FindLineStartingWith(lines, ExplicitRowMarker(s[0].kind), 1).None? then [s[0]] + Promotable(s[1..], lines)
      else Promotable(s[1..], lines)
  }

  lemma SubtractTwice(a: multiset<Keyword>, b: multiset<Keyword>, c: multiset<Keyword>)
    ensures (a - b) - c == a - (b + c)
  {
    forall z ensures ((a - b) - c)[z] == (a - (b + c))[z] { }
  }

  /** Promotion changes nothing but the test itself and suites that
      receive a record. */
  lemma {:induction false} PromoteAllExpected(index: seq<HE.Entry>, ancestors: seq<Frame>, test: Frame, lines: seq<Line>,
                                              failing: seq<Keyword>, i: nat, st: Correlation)
    requires test.element.Test?
    ensures OnlyExpected(index, test.path, st, PromoteAll(index, ancestors, test, lines, failing, i, st))
    decreases |failing| - i
  {
    if i < |failing| {
      var st1 := PromoteOne(index, ancestors, test, lines, failing[i], st);
      PromoteOneExpected(index, ancestors, test, lines, failing[i], st);
      PromoteAllExpected(index, ancestors, test, lines, failing, i + 1, st1);
      ExpectedTrans(index, test.path, st, st1, PromoteAll(index, ancestors, test, lines, failing, i + 1, st1));
    }
  }

  lemma PromotableConcat(k: Keyword, rest: seq<Keyword>, lines: seq<Line>)
    ensures multiset(Promotable([k] + rest, lines)) == multiset(Promotable([k], lines)) + multiset(Promotable(rest, lines))
  {
    assert ([k] + rest)[0] == k && ([k] + rest)[1..] == rest;
    assert Promotable([k] + rest, lines) == Promotable([k], lines) + Promotable(rest, lines) by {
      PromotableSingle(k, lines);
    }
  }

  lemma PromotableSingle(k: Keyword, lines: seq<Line>)
    ensures Promotable([k], lines) == if FindLineStartingWith(lines, ExplicitRowMarker(k.kind), 1).None? then [k] else []
  {
    assert [k][0] == k && [k][1..] == [];
  }

  /** One promotion step takes the record out of the test exactly when the
      scenario does not declare it. */
  lemma PromoteOneBody(index: seq<HE.Entry>, ancestors: seq<Frame>, test: Frame, lines: seq<Line>,
                       k: Keyword, st: Correlation)
    requires test.element.Test?
    ensures multiset(Current(PromoteOne(index, ancestors, test, lines, k, st).edits, test))
            == multiset(Current(st.edits, test)) - multiset(Promotable([k], lines))
  {
    PromoteOneOutcome(index, ancestors, test, lines, k, st);
    PromotableSingle(k, lines);
    assert multiset([k]) == multiset{k};
  }

  /** Promoting the records from the `i`-th on removes from the test exactly
      the ones the scenario does not declare. */
  lemma {:induction false} PromoteAllBody(index: seq<HE.Entry>, ancestors: seq<Frame>, test: Frame, lines: seq<Line>,
                                          failing: seq<Keyword>, i: nat, st: Correlation)
    requires test.element.Test? && i <= |failing|
    ensures var r := PromoteAll(index, ancestors, test, lines, failing, i, st);
      multiset(Current(r.edits, test)) == multiset(Current(st.edits, test)) - multiset(Promotable(failing[i..], lines))
    decreases |failing| - i
  {
    if i < |failing| {
      var k := failing[i];
      var st1 := PromoteOne(index, ancestors, test, lines, k, st);
      assert PromoteAll(index, ancestors, test, lines, failing, i, st)
          == PromoteAll(index, ancestors, test, lines, failing, i + 1, st1);
      PromoteOneBody(index, ancestors, test, lines, k, st);
      PromoteAllBody(index, ancestors, test, lines, failing, i + 1, st1);
      SliceCons(failing, i);
      PromotableConcat(k, failing[i + 1..], lines);
      SubtractTwice(multiset(Current(st.edits, test)), multiset(Promotable([k], lines)),
                    multiset(Promotable(failing[i + 1..], lines)));
    } else {
      assert multiset(Promotable(failing[i..], lines)) == multiset{};
    }
  }

  /** No failing setup or teardown that the scenario does not declare
      explicitly is left in the body. */
  predicate NoPromotable(body: seq<Keyword>, lines: seq<Line>) {
    forall k :: 0 <= k < |body| && IsFailingSetupTeardown(body[k]) ==>
      FindLineStartingWith(lines, ExplicitRowMarker(body[k].kind), 1).Some?
  }

  /** After promotion a failing test keeps only the failing setups and
      teardowns its scenario declares explicitly. */
  lemma PromotionLeavesOnlyExplicit(index: seq<HE.Entry>, ancestors: seq<Frame>, test: Frame, lines: seq<Line>,
                                    st: Correlation)
    requires test.element.Test?
    ensures var r := PromoteAll(index, ancestors, test, lines, FailingSetupTeardown(Current(st.edits, test)), 0, st);
      NoPromotable(Current(r.edits, test), lines)
  {
    var body := Current(st.edits, test);
    var failing := FailingSetupTeardown(body);
    var r := PromoteAll(index, ancestors, test, lines, failing, 0, st);
    PromoteAllBody(index, ancestors, test, lines, failing, 0, st);
    assert failing[0..] == failing;
    var after := Current(r.edits, test);
    forall k | 0 <= k < |after| && IsFailingSetupTeardown(after[k])
      ensures FindLineStartingWith(lines, ExplicitRowMarker(after[k].kind), 1).Some?
    {
      assert multiset(after)[after[k]] > 0;
    }
  }

  /** When every record still to be promoted is declared explicitly,
      promotion changes nothing. */
  lemma {:induction false} PromoteAllIdle(index: seq<HE.Entry>, ancestors: seq<Frame>, test: Frame, lines: seq<Line>,
                                          failing: seq<Keyword>, i: nat, st: Correlation)
    requires forall k :: i <= k < |failing| ==> FindLineStartingWith(lines, ExplicitRowMarker(failing[k].kind), 1).Some?
    ensures PromoteAll(index, ancestors, test, lines, failing, i, st) == st
    decreases |failing| - i
  {
    if i < |failing| {
      assert PromoteOne(index, ancestors, test, lines, failing[i], st) == st;
      PromoteAllIdle(index, ancestors, test, lines, failing, i + 1, st);
    }
  }

  // ---------------------------------------------------------------------
  // The traversal: after one visit a subtree is settled, and a settled
  // subtree is left as it is by a further visit

  /** Nothing is left for a visit of this node itself to do: its slot points
      here, a suite with a failed record of its own is marked failing, and a
      failing test matched to a scenario has nothing left to promote. */
  ghost predicate HeaderSettled(index: seq<HE.Entry>, fr: Frame, st: Correlation) {
    match fr.element
    case OutputSuite(name, _, _) =>
      (match FindHighElement(index, name)
       case None => true
       case Some(j) =>
         && Effect.AssignOutput(index[j].id, fr.path) in st.effects
         && (AnyFailed(Current(st.edits, fr)) ==> MarkFailing(index[j].id) in st.effects))
    case Test(name, status, _, _) =>
      (match FindHighElement(index, name)
       case None => true
       case Some(j) =>
         && Effect.AssignOutput(index[j].id, fr.path) in st.effects
         && (status == Failed && index[j].kind.Scenario? ==> NoPromotable(Current(st.edits, fr), index[j].kind.lines)))
    case OtherElement(_) => true
  }

  ghost predicate Settled(index: seq<HE.Entry>, fr: Frame, st: Correlation)
    decreases fr.element
  {
    && HeaderSettled(index, fr, st)
    && forall i :: 0 <= i < |fr.element.elements| ==> Settled(index, ChildFrame(fr, i), st)
  }

  /** Settledness only looks at which effects are present, not how often. */
  lemma {:induction false} SettledMono(index: seq<HE.Entry>, fr: Frame, s1: Correlation, s2: Correlation)
    requires Settled(index, fr, s1)
    requires s2.edits == s1.edits && forall e :: e in s1.effects ==> e in s2.effects
    ensures Settled(index, fr, s2)
    decreases fr.element
  {
    forall i | 0 <= i < |fr.element.elements| ensures Settled(index, ChildFrame(fr, i), s2) {
      SettledMono(index, ChildFrame(fr, i), s1, s2);
    }
  }

  lemma ChildrenSettledMono(index: seq<HE.Entry>, parent: Frame, i: nat, s1: Correlation, s2: Correlation)
    requires forall j :: i <= j < |parent.element.elements| ==> Settled(index, ChildFrame(parent, j), s1)
    requires s2.edits == s1.edits && forall e :: e in s1.effects ==> e in s2.effects
    ensures forall j :: i <= j < |parent.element.elements| ==> Settled(index, ChildFrame(parent, j), s2)
  {
    forall j | i <= j < |parent.element.elements| ensures Settled(index, ChildFrame(parent, j), s2) {
      SettledMono(index, ChildFrame(parent, j), s1, s2);
    }
  }

  lemma HeaderStable(index: seq<HE.Entry>, fr: Frame, p: Path, s1: Correlation, s2: Correlation)
    requires HeaderSettled(index, fr, s1)
    requires OnlyExpected(index, p, s1, s2)
    requires !(p <= fr.path)
    ensures HeaderSettled(index, fr, s2)
  {
    if !fr.element.OtherElement? {
      match FindHighElement(index, fr.element.fullName)
      case None =>
      case Some(j) =>
        AppendsKeeps(s1, s2, Effect.AssignOutput(index[j].id, fr.path));
        if fr.element.OutputSuite? && AnyFailed(Current(s1.edits, fr)) {
          AppendsKeeps(s1, s2, MarkFailing(index[j].id));
        }
    }
  }

  lemma PrefixOfChildPath(p: Path, q: Path, i: nat)
    ensures p <= q + [i] ==> p <= q || p == q + [i]
    ensures q + [i] <= p ==> q <= p
  {
    if p <= q + [i] && |p| <= |q| {
      assert p == (q + [i])[..|p|];
      assert (q + [i])[..|p|] == q[..|p|];
    }
    if q + [i] <= p {
      assert q == (q + [i])[..|q|];
      assert (q + [i])[..|q|] == p[..|q|];
    }
  }

  lemma IncomparableChild(p: Path, q: Path, i: nat)
    requires !(p <= q) && !(q <= p)
    ensures !(p <= q + [i]) && !(q + [i] <= p)
  {
    PrefixOfChildPath(p, q, i);
  }

  /** A settled subtree stays settled while a pass works elsewhere. */
  lemma {:induction false} SettledStable(index: seq<HE.Entry>, fr: Frame, p: Path, s1: Correlation, s2: Correlation)
    requires Settled(index, fr, s1)
    requires OnlyExpected(index, p, s1, s2)
    requires !(p <= fr.path) && !(fr.path <= p)
    ensures Settled(index, fr, s2)
    decreases fr.element
  {
    HeaderStable(index, fr, p, s1, s2);
    forall i | 0 <= i < |fr.element.elements| ensures Settled(index, ChildFrame(fr, i), s2) {
      IncomparableChild(p, fr.path, i);
      SettledStable(index, ChildFrame(fr, i), p, s1, s2);
    }
  }

  lemma StepExpected(index: seq<HE.Entry>, ancestors: seq<Frame>, fr: Frame, st: Correlation)
    requires !fr.element.OtherElement?
    ensures fr.element.OutputSuite? ==> OnlyExpected(index, fr.path, st, SuiteStep(index, fr, st))
    ensures fr.element.Test? ==> OnlyExpected(index, fr.path, st, TestStep(index, ancestors, fr, st))
    ensures fr.element.Test? ==> HeaderSettled(index, fr, TestStep(index, ancestors, fr, st))
  {
    var st1 := FindAndAssignOutput(index, fr, st);
    assert OnlyExpected(index, fr.path, st, st1);
    if fr.element.Test? {
      var found := FindHighElement(index, fr.element.fullName);
      if fr.element.status == Failed && found.Some? && index[found.value].kind.Scenario? {
        var lines := index[found.value].kind.lines;
        var failing := FailingSetupTeardown(Current(st1.edits, fr));
        var r := PromoteAll(index, ancestors, fr, lines, failing, 0, st1);
        PromoteAllExpected(index, ancestors, fr, lines, failing, 0, st1);
        ExpectedTrans(index, fr.path, st, st1, r);
        PromotionLeavesOnlyExplicit(index, ancestors, fr, lines, st1);
        if |failing| > 0 {
          AppendsKeeps(st1, r, Effect.AssignOutput(index[found.value].id, fr.path));
        } else {
          assert forall k :: 0 <= k < |Current(st1.edits, fr)| ==> !IsFailingSetupTeardown(Current(st1.edits, fr)[k]) by {
            forall k | 0 <= k < |Current(st1.edits, fr)| ensures !IsFailingSetupTeardown(Current(st1.edits, fr)[k]) {
              var x := Current(st1.edits, fr)[k];
              assert multiset(Current(st1.edits, fr))[x] > 0;
            }
          }
        }
      }
    }
  }

  /** The first visit of a node settles its whole subtree, and changes
      nothing but that subtree's tests and suites that receive a record. */
  lemma {:induction false} FirstVisit(index: seq<HE.Entry>, ancestors: seq<Frame>, fr: Frame, st: Correlation)
    ensures var r := Preprocess(index, ancestors, fr, st);
      Settled(index, fr, r) && OnlyExpected(index, fr.path, st, r)
    decreases fr.element, 2, 0
  {
    var inner := [fr] + ancestors;
    match fr.element
    case OutputSuite(_, _, _) =>
      var st1 := SuiteStep(index, fr, st);
      StepExpected(index, ancestors, fr, st);
      var st2 := PreprocessAll(index, inner, fr, 0, st1);
      FirstVisitAll(index, inner, fr, 0, st1);
      ExpectedTrans(index, fr.path, st, st1, st2);
      HeaderAfterChildren(index, fr, st1, st2);
      SecondVisitAll(index, inner, fr, 0, st2);
      var st3 := PreprocessAll(index, inner, fr, 0, st2);
      SettledMono(index, fr, st2, st3);
      assert OnlyExpected(index, fr.path, st2, st3);
      ExpectedTrans(index, fr.path, st, st2, st3);
    case Test(_, _, _, _) =>
      var st1 := TestStep(index, ancestors, fr, st);
      StepExpected(index, ancestors, fr, st);
      var st2 := PreprocessAll(index, inner, fr, 0, st1);
      FirstVisitAll(index, inner, fr, 0, st1);
      ExpectedTrans(index, fr.path, st, st1, st2);
      HeaderAfterChildren(index, fr, st1, st2);
    case OtherElement(_) =>
      FirstVisitAll(index, inner, fr, 0, st);
  }

  /** The node's own header survives the visit of its children. */
  lemma HeaderAfterChildren(index: seq<HE.Entry>, fr: Frame, s1: Correlation, s2: Correlation)
    requires HeaderSettled(index, fr, s1) || fr.element.OutputSuite?
    requires fr.element.OutputSuite? ==> HeaderSettled(index, fr, s1)
    requires OnlyExpected(index, fr.path, s1, s2)
    requires !fr.element.OutputSuite? ==> Current(s2.edits, fr) == Current(s1.edits, fr)
    ensures HeaderSettled(index, fr, s2)
  {
    if !fr.element.OtherElement? {
      match FindHighElement(index, fr.element.fullName)
      case None =>
      case Some(j) =>
        AppendsKeeps(s1, s2, Effect.AssignOutput(index[j].id, fr.path));
        if fr.element.OutputSuite? && AnyFailed(Current(s2.edits, fr)) {
          if Current(s2.edits, fr) == Current(s1.edits, fr) {
            AppendsKeeps(s1, s2, MarkFailing(index[j].id));
          }
        }
    }
  }

  lemma {:induction false} FirstVisitAll(index: seq<HE.Entry>, ancestors: seq<Frame>, parent: Frame, i: nat, st: Correlation)
    requires forall j :: 0 <= j < i && j < |parent.element.elements| ==> Settled(index, ChildFrame(parent, j), st)
    ensures var r := PreprocessAll(index, ancestors, parent, i, st);
      && (forall j :: 0 <= j < |parent.element.elements| ==> Settled(index, ChildFrame(parent, j), r))
      && OnlyExpected(index, parent.path, st, r)
      && (!parent.element.OutputSuite? ==> Current(r.edits, parent) == Current(st.edits, parent))
    decreases parent.element, 1, |parent.element.elements| - i
  {
    if i < |parent.element.elements| {
      var child := ChildFrame(parent, i);
      var st1 := Preprocess(index, ancestors, child, st);
      FirstVisit(index, ancestors, child, st);
      forall j | 0 <= j < i ensures Settled(index, ChildFrame(parent, j), st1) {
        SiblingPaths(parent.path, i, j);
        SiblingPaths(parent.path, j, i);
        SettledStable(index, ChildFrame(parent, j), child.path, st, st1);
      }
      FirstVisitAll(index, ancestors, parent, i + 1, st1);
      var r := PreprocessAll(index, ancestors, parent, i + 1, st1);
      ExpectedWiden(index, parent.path, child.path, st, st1);
      ExpectedTrans(index, parent.path, st, st1, r);
      if !parent.element.OutputSuite? {
        assert !(child.path <= parent.path);
      }
    } else {
      assert OnlyExpected(index, parent.path, st, st);
    }
  }

  lemma SiblingPaths(p: Path, i: nat, j: nat)
    ensures p + [i] <= p + [j] ==> i == j
  {
    if p + [i] <= p + [j] {
      assert (p + [i])[|p|] == (p + [j])[|p|];
    }
  }

  /** A further visit of a settled subtree changes no keyword list and
      records no effect that is not already recorded. */
  lemma {:induction false} SecondVisit(index: seq<HE.Entry>, ancestors: seq<Frame>, fr: Frame, st: Correlation)
    requires Settled(index, fr, st)
    ensures var r := Preprocess(index, ancestors, fr, st);
      r.edits == st.edits && forall e :: e in r.effects ==> e in st.effects
    decreases fr.element, 2, 0
  {
    var inner := [fr] + ancestors;
    match fr.element
    case OutputSuite(_, _, _) =>
      var st1 := SuiteStep(index, fr, st);
      SettledMono(index, fr, st, st1);
      SecondVisitAll(index, inner, fr, 0, st1);
      var st2 := PreprocessAll(index, inner, fr, 0, st1);
      SettledMono(index, fr, st1, st2);
      SecondVisitAll(index, inner, fr, 0, st2);
    case Test(_, _, _, _) =>
      var st1 := TestStep(index, ancestors, fr, st);
      TestStepIdle(index, ancestors, fr, st);
      SettledMono(index, fr, st, st1);
      SecondVisitAll(index, inner, fr, 0, st1);
    case OtherElement(_) =>
      SecondVisitAll(index, inner, fr, 0, st);
  }

  /** On a settled test the header step only re-assigns the slot. */
  lemma TestStepIdle(index: seq<HE.Entry>, ancestors: seq<Frame>, fr: Frame, st: Correlation)
    requires fr.element.Test? && HeaderSettled(index, fr, st)
    ensures var r := TestStep(index, ancestors, fr, st);
      r.edits == st.edits && forall e :: e in r.effects ==> e in st.effects
  {
    var st1 := FindAndAssignOutput(index, fr, st);
    var found := FindHighElement(index, fr.element.fullName);
    if fr.element.status == Failed && found.Some? && index[found.value].kind.Scenario? {
      var lines := index[found.value].kind.lines;
      var body := Current(st1.edits, fr);
      var failing := FailingSetupTeardown(body);
      forall k | 0 <= k < |failing| ensures FindLineStartingWith(lines, ExplicitRowMarker(failing[k].kind), 1).Some? {
        var x := failing[k];
        assert multiset(failing)[x] > 0;
        assert x in body;
      }
      PromoteAllIdle(index, ancestors, fr, lines, failing, 0, st1);
    }
  }

  lemma {:induction false} SecondVisitAll(index: seq<HE.Entry>, ancestors: seq<Frame>, parent: Frame, i: nat, st: Correlation)
    requires forall j :: i <= j < |parent.element.elements| ==> Settled(index, ChildFrame(parent, j), st)
    ensures var r := PreprocessAll(index, ancestors, parent, i, st);
      r.edits == st.edits && forall e :: e in r.effects ==> e in st.effects
    decreases parent.element, 1, |parent.element.elements| - i
  {
    if i < |parent.element.elements| {
      var st1 := Preprocess(index, ancestors, ChildFrame(parent, i), st);
      SecondVisit(index, ancestors, ChildFrame(parent, i), st);
      ChildrenSettledMono(index, parent, i + 1, st, st1);
      SecondVisitAll(index, ancestors, parent, i + 1, st1);
    }
  }

  /** The second traversal of a suite's children (the fall-through at the
      end of `preprocess`) finds nothing left to do: it changes no keyword
      list and records no slot assignment or failing mark that the first
      traversal did not already record. */
  lemma SecondTraversalAddsNothing(index: seq<HE.Entry>, ancestors: seq<Frame>, fr: Frame, st: Correlation)
    requires fr.element.OutputSuite?
    ensures var st1 := PreprocessAll(index, [fr] + ancestors, fr, 0, SuiteStep(index, fr, st));
            var st2 := PreprocessAll(index, [fr] + ancestors, fr, 0, st1);
      st2.edits == st1.edits && forall e :: e in st2.effects ==> e in st1.effects
  {
    FirstVisitAll(index, [fr] + ancestors, fr, 0, SuiteStep(index, fr, st));
    SecondVisitAll(index, [fr] + ancestors, fr, 0, PreprocessAll(index, [fr] + ancestors, fr, 0, SuiteStep(index, fr, st)));
  }

  // ---------------------------------------------------------------------
  // parseOutput followed by cleanup

  /** Every effect of a whole pass names an element of the index. */
  lemma CorrelateFromIndex(index: seq<HE.Entry>, result: OutputElement)
    ensures FromIndex(index, Correlate(index, result).effects)
  {
    FirstVisit(index, [], Frame([], result), Correlation(map[], []));
  }

  lemma {:induction false} EntryIdsMember(entries: seq<HE.Entry>, k: nat)
    requires k < |entries|
    ensures entries[k].id in HE.EntryIds(entries)
    decreases k
  {
    if k > 0 {
      EntryIdsMember(entries[1..], k - 1);
    }
  }

  /** With valid caches, the index names only descendants of the root. */
  lemma IndexIdsAreDescendants(root: HE.HighElement)
    requires HE.Valid(root)
    ensures forall id :: id in IndexIds(HE.SearchIndex(root)) ==> id in root.childrenRecursively
  {
    var index := HE.SearchIndex(root);
    HE.SearchIndexCoversDescendants(root);
    forall id | id in IndexIds(index) ensures id in root.childrenRecursively {
      var k :| 0 <= k < |index| && index[k].id == id;
      EntryIdsMember(index, k);
    }
  }

  lemma EffectIdsFromIndex(index: seq<HE.Entry>, effects: seq<Effect>)
    requires FromIndex(index, effects)
    ensures EffectIds(effects) <= IndexIds(index)
  {
    forall id | id in EffectIds(effects) ensures id in IndexIds(index) {
      var k :| 0 <= k < |effects| && effects[k].id == id;
      assert effects[k] in effects;
    }
  }

  /** Cleanup forgets every slot that effects on descendants of the root
      may have set. */
  lemma CleanupForgetsEffects(root: HE.HighElement, m: SourceMarks, effects: seq<Effect>)
    requires forall id :: id in EffectIds(effects) ==> id in root.childrenRecursively
    ensures Cleanup(false, root, ApplyEffects(m, effects)).outputElement == Cleanup(false, root, m).outputElement
  {
    var after := Cleanup(false, root, ApplyEffects(m, effects));
    var before := Cleanup(false, root, m);
    ApplyEffectsFrame(m, effects);
    assert AssignedIds(effects) <= EffectIds(effects);
    assert after.outputElement.Keys == before.outputElement.Keys;
    forall id | id in after.outputElement ensures after.outputElement[id] == before.outputElement[id] {
      assert id !in EffectIds(effects);
    }
  }

  /** Cleanup after a pass gives back the slots cleanup alone gives; the
      failing marks differ only by the non-suite elements the pass marked,
      whose icons cleanup does not reset. */
  lemma CleanupUndoesParse(disabled: bool, root: HE.HighElement, result: OutputElement, m: SourceMarks)
    requires HE.Valid(root)
    ensures var after := Cleanup(disabled, root, ParseOutput(disabled, root, result, m));
            var before := Cleanup(disabled, root, m);
      && after.outputElement == before.outputElement
      && (disabled ==> after == before)
      && (!disabled ==> after.failing == before.failing
                        + (MarkedIds(Correlate(HE.SearchIndex(root), result).effects) - SuiteIds(HE.SearchIndex(root))))
  {
    if !disabled {
      var index := HE.SearchIndex(root);
      var effects := Correlate(index, result).effects;
      CorrelateFromIndex(index, result);
      EffectIdsFromIndex(index, effects);
      IndexIdsAreDescendants(root);
      CleanupForgetsEffects(root, m, effects);
    }
  }

  /** The slots after applying effects depend only on the slots before. */
  lemma {:induction false} ApplyEffectsSlots(m1: SourceMarks, m2: SourceMarks, effects: seq<Effect>)
    requires m1.outputElement == m2.outputElement
    ensures ApplyEffects(m1, effects).outputElement == ApplyEffects(m2, effects).outputElement
    decreases |effects|
  {
    if |effects| > 0 {
      ApplyEffectsSlots(ApplyEffect(m1, effects[0]), ApplyEffect(m2, effects[0]), effects[1..]);
    }
  }

  /** Correlating a second run after cleaning up the first gives the slots
      that correlating it on a freshly loaded tree gives, and the same
      failing marks apart from the non-suite elements the first run marked. */
  lemma RerunMatchesFresh(root: HE.HighElement, first: OutputElement, second: OutputElement, m: SourceMarks)
    requires HE.Valid(root)
    ensures var again := ParseOutput(false, root, second, Cleanup(false, root, ParseOutput(false, root, first, m)));
            var clean := ParseOutput(false, root, second, Cleanup(false, root, m));
      && again.outputElement == clean.outputElement
      && again.failing == clean.failing
                          + (MarkedIds(Correlate(HE.SearchIndex(root), first).effects) - SuiteIds(HE.SearchIndex(root)))
  {
    CleanupUndoesParse(false, root, first, m);
    var effects := Correlate(HE.SearchIndex(root), second).effects;
    ApplyEffectsSlots(Cleanup(false, root, ParseOutput(false, root, first, m)), Cleanup(false, root, m), effects);
  }
}
