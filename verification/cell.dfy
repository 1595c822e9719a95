/** The per-cell semantic classifier of the grid editor.

    A line is the sequence of its cells' contents; cell 0 is the row label.
    The Java cell keeps its classification in mutable fields that every
    query recomputes first; here those fields are the value `CellState` and
    the recomputation is the pure function `UpdateSemanticsStatus`, which
    takes the previous field values as an argument so that the model can
    show that nothing stale leaks from them into any answer. */
module Cell {
  import opened Optional
  import opened Text

  /** An entry of the keyword catalog visible from the owning suite;
      `isScenario` holds when the keyword is a test case usable as a keyword. */
  datatype KnownKeyword = KnownKeyword(autocompleteText: string, isScenario: bool)

  /** The mutable classification fields of a cell. */
  datatype CellState = CellState(
    isComment: bool,
    isKeyword: bool,
    cellIndex: int,
    permissibleKeywords: seq<KnownKeyword>)

  datatype CompletionOption = SettingOption(settingName: string) | KeywordOption(keyword: KnownKeyword)

  const SettingStyle := "-fx-text-fill: darkmagenta; -fx-font-weight: bold; "
  const CommentStyle := "-fx-text-fill: brown; "
  const KeywordStyle := "-fx-font-weight: bold; "
  const ScenarioKeywordColour := "-fx-text-fill: blue; "
  const LibraryKeywordColour := "-fx-text-fill: dodgerblue; "
  const VariableStyle := "-fx-text-fill: green; "

  predicate IsCommentStart(contents: string) {
    StartsWith(contents, "#")
  }

  /** A cell that starts with a variable marker is a return-value slot. */
  predicate IsVariableStart(contents: string) {
    StartsWith(contents, "${") || StartsWith(contents, "@{") || StartsWith(contents, "&{")
  }

  lemma CommentIsNotVariable()
    ensures forall contents :: IsCommentStart(contents) ==> !IsVariableStart(contents)
  {
    forall contents | IsCommentStart(contents)
      ensures !IsVariableStart(contents)
    {
      assert contents[0] == '#';
    }
  }

  predicate IsBracketed(contents: string) {
    StartsWith(contents, "[") && EndsWith(contents, "]")
  }

  predicate MentionsVariable(contents: string) {
    Contains(contents, "${") || Contains(contents, "@{") || Contains(contents, "&{")
  }

  /** Reference definition: cell `i` (i >= 1) is the line's keyword when it
      is neither a comment nor a variable and every cell between the row
      label and it is a variable. */
  predicate IsKeywordCell(line: Line, i: int) {
    && 1 <= i < |line|
    && !IsCommentStart(line[i])
    && !IsVariableStart(line[i])
    && forall k :: 1 <= k < i ==> IsVariableStart(line[k])
  }

  /** Reference definition: some cell in 1..i starts a comment. */
  predicate CommentUpTo(line: Line, i: int)
    requires i < |line|
  {
    exists k :: 1 <= k <= i && IsCommentStart(line[k])
  }

  /** The body of the classification loop, from cell `j` on. `isKeyword` is
      the flag as the previous iteration left it, `past` says whether the
      keyword has been passed, `perm` is the catalog field. The catalog
      field is only ever replaced by the catalog, and is the catalog
      whenever the cell comes out as the keyword. */
  function Scan(line: Line, index: nat, catalog: seq<KnownKeyword>, j: nat,
                isKeyword: bool, past: bool, perm: seq<KnownKeyword>): (s: CellState)
    requires 1 <= j
    ensures s.cellIndex == index
    ensures s.isComment ==> !s.isKeyword
    ensures (isKeyword ==> perm == catalog) ==> (s.isKeyword ==> s.permissibleKeywords == catalog)
    ensures s.permissibleKeywords == catalog || s.permissibleKeywords == perm
    decreases |line| - j
  {
    if j >= |line| then CellState(false, isKeyword, index, perm)
    else if IsCommentStart(line[j]) then CellState(true, false, index, perm)
    else
      var kw := !IsVariableStart(line[j]) && !past;
      var perm' := if kw then catalog else perm;
      if j == index then CellState(false, kw, index, perm')
      else Scan(line, index, catalog, j + 1, kw, past || kw, perm')
  }

  /** Recomputes the classification fields of cell `index` of `line`, given
      their previous values `prior`. The catalog is the list the owning suite
      exposes; the Java code fetches it only when it meets the keyword. */
  function UpdateSemanticsStatus(prior: CellState, line: Line, index: nat, catalog: seq<KnownKeyword>): (s: CellState)
    requires index < |line|
    ensures s.cellIndex == index
    ensures s.isComment ==> !s.isKeyword
    ensures s.isKeyword ==> s.permissibleKeywords == catalog
    ensures s.permissibleKeywords == catalog || s.permissibleKeywords == prior.permissibleKeywords
  {
    Scan(line, index, catalog, 1, false, false, prior.permissibleKeywords)
  }

  /** Index of the first catalog entry whose text equals `contents` once
      both are lower-cased. */
  function FirstMatch(catalog: seq<KnownKeyword>, contents: string): (r: Option<nat>)
    ensures r.Some? ==> r.value < |catalog| && Lower(catalog[r.value].autocompleteText) == Lower(contents)
    ensures r.Some? ==> forall k :: 0 <= k < r.value ==> Lower(catalog[k].autocompleteText) != Lower(contents)
    ensures r.None? ==> forall k :: 0 <= k < |catalog| ==> Lower(catalog[k].autocompleteText) != Lower(contents)
  {
    if |catalog| == 0 then None
    else if Lower(catalog[0].autocompleteText) == Lower(contents) then Some(0)
    else match FirstMatch(catalog[1..], contents)
      case None => None
      case Some(k) => Some(k + 1)
  }

  /** `getStyle`: the CSS fragment for cell `index`. */
  function GetStyle(prior: CellState, line: Line, index: nat, catalog: seq<KnownKeyword>): (style: string)
    requires index < |line|
    ensures style in {SettingStyle, CommentStyle, KeywordStyle, KeywordStyle + ScenarioKeywordColour,
                      KeywordStyle + LibraryKeywordColour, VariableStyle, ""}
  {
    var s := UpdateSemanticsStatus(prior, line, index, catalog);
    var contents := line[index];
    if s.cellIndex == 1 && IsBracketed(contents) then SettingStyle
    else if s.isComment then CommentStyle
    else if s.isKeyword then
      match FirstMatch(s.permissibleKeywords, contents)
      case Some(k) =>
        if s.permissibleKeywords[k].isScenario then KeywordStyle + ScenarioKeywordColour
        else KeywordStyle + LibraryKeywordColour
      case None => KeywordStyle
    else if MentionsVariable(contents) then VariableStyle
    else ""
  }

  function SettingOptions(settingNames: seq<string>): (r: seq<CompletionOption>)
    ensures |r| == |settingNames|
    ensures forall k :: 0 <= k < |r| ==> r[k] == SettingOption(settingNames[k])
  {
    if |settingNames| == 0 then [] else [SettingOption(settingNames[0])] + SettingOptions(settingNames[1..])
  }

  function KeywordOptions(catalog: seq<KnownKeyword>): (r: seq<CompletionOption>)
    ensures |r| == |catalog|
    ensures forall k :: 0 <= k < |r| ==> r[k] == KeywordOption(catalog[k])
  {
    if |catalog| == 0 then [] else [KeywordOption(catalog[0])] + KeywordOptions(catalog[1..])
  }

  /** `getCompletionOptions`: the test-case setting names (`settingNames`)
      when the cell is at index 1, then the catalog when it is the keyword. */
  function GetCompletionOptions(prior: CellState, line: Line, index: nat, catalog: seq<KnownKeyword>,
                                settingNames: seq<string>): (options: seq<CompletionOption>)
    requires index < |line|
    ensures var isKeyword := UpdateSemanticsStatus(prior, line, index, catalog).isKeyword;
      options == (if index == 1 then SettingOptions(settingNames) else [])
                 + (if isKeyword then KeywordOptions(catalog) else [])
  {
    var s := UpdateSemanticsStatus(prior, line, index, catalog);
    (if s.cellIndex == 1 then SettingOptions(settingNames) else [])
    + (if s.isKeyword then KeywordOptions(s.permissibleKeywords) else [])
  }

  /** `getKeywordInThisCell`: the catalog entry the keyword cell refers to. */
  function GetKeywordInThisCell(prior: CellState, line: Line, index: nat, catalog: seq<KnownKeyword>): (r: Option<KnownKeyword>)
    requires index < |line|
    ensures r.Some? ==> UpdateSemanticsStatus(prior, line, index, catalog).isKeyword
    ensures r.Some? <==> UpdateSemanticsStatus(prior, line, index, catalog).isKeyword
                         && FirstMatch(catalog, line[index]).Some?
    ensures r.Some? ==> r.value == catalog[FirstMatch(catalog, line[index]).value]
  {
    var s := UpdateSemanticsStatus(prior, line, index, catalog);
    if s.isKeyword then
      match FirstMatch(s.permissibleKeywords, line[index])
      case Some(k) => Some(s.permissibleKeywords[k])
      case None => None
    else None
  }

  // ---------------------------------------------------------------------
  // Characterisation of the loop

  lemma PastStep(line: Line, j: nat, past: bool)
    requires 1 <= j < |line|
    requires past <==> exists k :: 1 <= k < j && !IsVariableStart(line[k])
    ensures (past || !IsVariableStart(line[j])) <==> exists k :: 1 <= k < j + 1 && !IsVariableStart(line[k])
  {
    if !past && IsVariableStart(line[j]) {
      forall k | 1 <= k < j + 1 ensures IsVariableStart(line[k]) { }
    }
  }

  lemma KeywordStep(line: Line, j: nat, past: bool)
    requires 1 <= j < |line| && !IsCommentStart(line[j])
    requires past <==> exists k :: 1 <= k < j && !IsVariableStart(line[k])
    ensures (!IsVariableStart(line[j]) && !past) <==> IsKeywordCell(line, j)
  {
  }

  lemma CommentBlocksKeyword(line: Line, j: nat, i: nat)
    requires 1 <= j <= i < |line| && IsCommentStart(line[j])
    ensures !IsKeywordCell(line, i)
  {
    CommentIsNotVariable();
    assert !IsVariableStart(line[j]);
  }

  lemma CommentShift(line: Line, j: nat, hi: nat)
    requires j < hi <= |line|
    ensures (exists k :: j <= k < hi && IsCommentStart(line[k]))
            <==> IsCommentStart(line[j]) || exists k :: j + 1 <= k < hi && IsCommentStart(line[k])
  {
  }

  lemma {:induction false} ScanAfterLabel(line: Line, i: nat, catalog: seq<KnownKeyword>, j: nat,
                                          isKeyword: bool, past: bool, perm: seq<KnownKeyword>)
    requires 1 <= j <= i < |line|
    requires forall k :: 1 <= k < j ==> !IsCommentStart(line[k])
    requires past <==> exists k :: 1 <= k < j && !IsVariableStart(line[k])
    ensures var s := Scan(line, i, catalog, j, isKeyword, past, perm);
      && (s.isComment <==> exists k :: j <= k < i + 1 && IsCommentStart(line[k]))
      && (s.isKeyword <==> IsKeywordCell(line, i))
    decreases |line| - j
  {
    CommentShift(line, j, i + 1);
    if IsCommentStart(line[j]) {
      CommentBlocksKeyword(line, j, i);
    } else {
      KeywordStep(line, j, past);
      if j < i {
        var kw := !IsVariableStart(line[j]) && !past;
        PastStep(line, j, past);
        ScanAfterLabel(line, i, catalog, j + 1, kw, past || kw, if kw then catalog else perm);
      }
    }
  }

  lemma {:induction false} ScanRowLabel(line: Line, catalog: seq<KnownKeyword>, j: nat,
                                        isKeyword: bool, past: bool, perm: seq<KnownKeyword>)
    requires 1 <= j <= |line|
    requires forall k :: 1 <= k < j ==> !IsCommentStart(line[k])
    requires past <==> exists k :: 1 <= k < j && !IsVariableStart(line[k])
    requires isKeyword <==> j >= 2 && IsKeywordCell(line, j - 1)
    ensures var s := Scan(line, 0, catalog, j, isKeyword, past, perm);
      && (s.isComment <==> exists k :: j <= k < |line| && IsCommentStart(line[k]))
      && (s.isKeyword <==> IsKeywordCell(line, |line| - 1))
    decreases |line| - j
  {
    if j < |line| {
      CommentShift(line, j, |line|);
      if IsCommentStart(line[j]) {
        CommentBlocksKeyword(line, j, |line| - 1);
      } else {
        var kw := !IsVariableStart(line[j]) && !past;
        KeywordStep(line, j, past);
        PastStep(line, j, past);
        ScanRowLabel(line, catalog, j + 1, kw, past || kw, if kw then catalog else perm);
      }
    }
  }

  /** For a cell after the row label: it is a comment iff some cell from
      index 1 up to it starts with `#`, and it is the keyword iff it is the
      first cell after the label that is neither a variable nor a comment. */
  lemma ClassifyAfterLabel(prior: CellState, line: Line, i: nat, catalog: seq<KnownKeyword>)
    requires 1 <= i < |line|
    ensures UpdateSemanticsStatus(prior, line, i, catalog).isComment <==> CommentUpTo(line, i)
    ensures UpdateSemanticsStatus(prior, line, i, catalog).isKeyword <==> IsKeywordCell(line, i)
  {
    CommentIsNotVariable();
    ScanAfterLabel(line, i, catalog, 1, false, false, prior.permissibleKeywords);
  }

  /** For the row label itself the loop never meets the cell, so its flags
      describe the whole line: comment iff some later cell starts with `#`,
      keyword iff the line's last cell is the keyword cell. */
  lemma ClassifyRowLabel(prior: CellState, line: Line, catalog: seq<KnownKeyword>)
    requires 0 < |line|
    ensures UpdateSemanticsStatus(prior, line, 0, catalog).isComment
            <==> exists k :: 1 <= k < |line| && IsCommentStart(line[k])
    ensures UpdateSemanticsStatus(prior, line, 0, catalog).isKeyword <==> IsKeywordCell(line, |line| - 1)
  {
    CommentIsNotVariable();
    ScanRowLabel(line, catalog, 1, false, false, prior.permissibleKeywords);
  }

  /** Once a cell after the label starts a comment, every later cell of the
      line is a comment too. */
  lemma CommentAbsorbsRest(prior: CellState, line: Line, k: nat, i: nat, catalog: seq<KnownKeyword>)
    requires 1 <= k <= i < |line|
    requires IsCommentStart(line[k])
    ensures UpdateSemanticsStatus(prior, line, i, catalog).isComment
    ensures !UpdateSemanticsStatus(prior, line, i, catalog).isKeyword
  {
    ClassifyAfterLabel(prior, line, i, catalog);
  }

  /** At most one cell after the row label is the line's keyword. */
  lemma AtMostOneKeyword(p1: CellState, p2: CellState, line: Line, i: nat, j: nat, catalog: seq<KnownKeyword>)
    requires 1 <= i < |line| && 1 <= j < |line|
    requires UpdateSemanticsStatus(p1, line, i, catalog).isKeyword
    requires UpdateSemanticsStatus(p2, line, j, catalog).isKeyword
    ensures i == j
  {
    ClassifyAfterLabel(p1, line, i, catalog);
    ClassifyAfterLabel(p2, line, j, catalog);
  }

  /** A bracketed setting cell at index 1, such as `[Setup]`, is itself
      taken as the keyword, so the next cell is never the keyword. */
  lemma BracketedSettingIsKeyword(prior: CellState, line: Line, catalog: seq<KnownKeyword>)
    requires 2 <= |line|
    requires IsBracketed(line[1])
    ensures UpdateSemanticsStatus(prior, line, 1, catalog).isKeyword
    ensures forall i :: 2 <= i < |line| ==> !UpdateSemanticsStatus(prior, line, i, catalog).isKeyword
  {
    ClassifyAfterLabel(prior, line, 1, catalog);
    forall i | 2 <= i < |line|
      ensures !UpdateSemanticsStatus(prior, line, i, catalog).isKeyword
    {
      ClassifyAfterLabel(prior, line, i, catalog);
      assert !IsVariableStart(line[1]);
    }
  }

  // ---------------------------------------------------------------------
  // Locality

  lemma {:induction false} ScanIgnoresLabel(line: Line, line': Line, index: nat, catalog: seq<KnownKeyword>, j: nat,
                                            isKeyword: bool, past: bool, perm: seq<KnownKeyword>)
    requires 1 <= j
    requires |line| == |line'|
    requires forall k :: 1 <= k < |line| ==> line[k] == line'[k]
    ensures Scan(line, index, catalog, j, isKeyword, past, perm) == Scan(line', index, catalog, j, isKeyword, past, perm)
    decreases |line| - j
  {
    if j < |line| && !IsCommentStart(line[j]) && j != index {
      var kw := !IsVariableStart(line[j]) && !past;
      ScanIgnoresLabel(line, line', index, catalog, j + 1, kw, past || kw, if kw then catalog else perm);
    }
  }

  /** The row label's contents never influence the classification of any
      cell of the line, the label included. */
  lemma RowLabelIrrelevant(prior: CellState, line: Line, line': Line, i: nat, catalog: seq<KnownKeyword>)
    requires i < |line| == |line'|
    requires forall k :: 1 <= k < |line| ==> line[k] == line'[k]
    ensures UpdateSemanticsStatus(prior, line, i, catalog) == UpdateSemanticsStatus(prior, line', i, catalog)
  {
    ScanIgnoresLabel(line, line', i, catalog, 1, false, false, prior.permissibleKeywords);
  }

  lemma {:induction false} ScanLocal(line: Line, line': Line, index: nat, catalog: seq<KnownKeyword>, j: nat,
                                     isKeyword: bool, past: bool, perm: seq<KnownKeyword>)
    requires 1 <= j <= index < |line| && index < |line'|
    requires forall k :: 1 <= k <= index ==> line[k] == line'[k]
    ensures Scan(line, index, catalog, j, isKeyword, past, perm) == Scan(line', index, catalog, j, isKeyword, past, perm)
    decreases |line| - j
  {
    if !IsCommentStart(line[j]) && j != index {
      var kw := !IsVariableStart(line[j]) && !past;
      ScanLocal(line, line', index, catalog, j + 1, kw, past || kw, if kw then catalog else perm);
    }
  }

  /** A cell after the label is classified from the cells up to it only:
      changing or appending later cells (or the label) changes nothing. */
  lemma PrefixLocality(prior: CellState, line: Line, line': Line, i: nat, catalog: seq<KnownKeyword>)
    requires 1 <= i < |line| && i < |line'|
    requires forall k :: 1 <= k <= i ==> line[k] == line'[k]
    ensures UpdateSemanticsStatus(prior, line, i, catalog) == UpdateSemanticsStatus(prior, line', i, catalog)
  {
    ScanLocal(line, line', i, catalog, 1, false, false, prior.permissibleKeywords);
  }

  // ---------------------------------------------------------------------
  // Idempotence: no state survives from one query to the next

  lemma {:induction false} ScanFlagsIgnorePerm(line: Line, index: nat, catalog: seq<KnownKeyword>, j: nat,
                                               isKeyword: bool, past: bool, perm1: seq<KnownKeyword>, perm2: seq<KnownKeyword>)
    requires 1 <= j
    ensures var s1 := Scan(line, index, catalog, j, isKeyword, past, perm1);
            var s2 := Scan(line, index, catalog, j, isKeyword, past, perm2);
      s1.isComment == s2.isComment && s1.isKeyword == s2.isKeyword
    decreases |line| - j
  {
    if j < |line| && !IsCommentStart(line[j]) && j != index {
      var kw := !IsVariableStart(line[j]) && !past;
      ScanFlagsIgnorePerm(line, index, catalog, j + 1, kw, past || kw,
                          if kw then catalog else perm1, if kw then catalog else perm2);
    }
  }

  /** The flags a query computes do not depend on what the previous query
      left in the fields, and recomputing on the recomputed fields is a
      fixed point. */
  lemma UpdateIdempotent(p1: CellState, p2: CellState, line: Line, i: nat, catalog: seq<KnownKeyword>)
    requires i < |line|
    ensures var s1 := UpdateSemanticsStatus(p1, line, i, catalog);
            var s2 := UpdateSemanticsStatus(p2, line, i, catalog);
      s1.isComment == s2.isComment && s1.isKeyword == s2.isKeyword && s1.cellIndex == s2.cellIndex
    ensures var s1 := UpdateSemanticsStatus(p1, line, i, catalog);
      UpdateSemanticsStatus(s1, line, i, catalog) == s1
  {
    ScanFlagsIgnorePerm(line, i, catalog, 1, false, false, p1.permissibleKeywords, p2.permissibleKeywords);
    var s1 := UpdateSemanticsStatus(p1, line, i, catalog);
    ScanFlagsIgnorePerm(line, i, catalog, 1, false, false, p1.permissibleKeywords, s1.permissibleKeywords);
    var s11 := UpdateSemanticsStatus(s1, line, i, catalog);
    if s1.permissibleKeywords != catalog {
      assert s1.permissibleKeywords == p1.permissibleKeywords;
      assert !s11.isKeyword;
      assert s11.permissibleKeywords == catalog || s11.permissibleKeywords == s1.permissibleKeywords;
    }
  }

  /** Every query answers the same whatever the previous query left in the
      cell's fields: style, completion options and resolved keyword are
      functions of the line, the index and the catalog alone. */
  lemma QueriesIgnorePriorState(p1: CellState, p2: CellState, line: Line, i: nat,
                                catalog: seq<KnownKeyword>, settingNames: seq<string>)
    requires i < |line|
    ensures GetStyle(p1, line, i, catalog) == GetStyle(p2, line, i, catalog)
    ensures GetCompletionOptions(p1, line, i, catalog, settingNames) == GetCompletionOptions(p2, line, i, catalog, settingNames)
    ensures GetKeywordInThisCell(p1, line, i, catalog) == GetKeywordInThisCell(p2, line, i, catalog)
  {
    UpdateIdempotent(p1, p2, line, i, catalog);
  }

  // ---------------------------------------------------------------------
  // Style and completion in terms of the reference definitions

  /** The style of a cell after the row label, stated with the reference
      definitions: the setting style wins over everything, then comments,
      then the keyword (blue for a test case, dodgerblue for another
      keyword, bold only when unresolved), then variable mentions. */
  lemma StyleRules(prior: CellState, line: Line, i: nat, catalog: seq<KnownKeyword>)
    requires 1 <= i < |line|
    ensures i == 1 && IsBracketed(line[1]) ==> GetStyle(prior, line, i, catalog) == SettingStyle
    ensures !(i == 1 && IsBracketed(line[1])) && CommentUpTo(line, i)
            ==> GetStyle(prior, line, i, catalog) == CommentStyle
    ensures !(i == 1 && IsBracketed(line[1])) && IsKeywordCell(line, i)
            ==> GetStyle(prior, line, i, catalog) ==
                KeywordStyle + match FirstMatch(catalog, line[i])
                               case Some(k) => if catalog[k].isScenario then ScenarioKeywordColour else LibraryKeywordColour
                               case None => ""
    ensures !(i == 1 && IsBracketed(line[1])) && !CommentUpTo(line, i) && !IsKeywordCell(line, i)
            ==> GetStyle(prior, line, i, catalog) == (if MentionsVariable(line[i]) then VariableStyle else "")
  {
    ClassifyAfterLabel(prior, line, i, catalog);
  }

  /** The style of the row label. The classification loop never visits
      cell 0, so its flags describe the whole line: it takes the comment
      style when any later cell starts a comment, and otherwise the keyword
      style, coloured by a catalog match on its own contents, when the
      line's last cell is the keyword cell. */
  lemma RowLabelStyle(prior: CellState, line: Line, catalog: seq<KnownKeyword>)
    requires 0 < |line|
    ensures (exists k :: 1 <= k < |line| && IsCommentStart(line[k]))
            ==> GetStyle(prior, line, 0, catalog) == CommentStyle
    ensures !(exists k :: 1 <= k < |line| && IsCommentStart(line[k])) && IsKeywordCell(line, |line| - 1)
            ==> GetStyle(prior, line, 0, catalog) ==
                KeywordStyle + match FirstMatch(catalog, line[0])
                               case Some(k) => if catalog[k].isScenario then ScenarioKeywordColour else LibraryKeywordColour
                               case None => ""
    ensures !(exists k :: 1 <= k < |line| && IsCommentStart(line[k])) && !IsKeywordCell(line, |line| - 1)
            ==> GetStyle(prior, line, 0, catalog) == (if MentionsVariable(line[0]) then VariableStyle else "")
  {
    ClassifyRowLabel(prior, line, catalog);
  }

  /** Setting names are offered exactly at index 1 and the catalog exactly
      at the keyword cell; the setting names come first. */
  lemma CompletionRules(prior: CellState, line: Line, i: nat, catalog: seq<KnownKeyword>, settingNames: seq<string>)
    requires 1 <= i < |line|
    ensures var options := GetCompletionOptions(prior, line, i, catalog, settingNames);
      && |options| == (if i == 1 then |settingNames| else 0) + (if IsKeywordCell(line, i) then |catalog| else 0)
      && (i == 1 ==> options[..|settingNames|] == SettingOptions(settingNames))
      && (IsKeywordCell(line, i) ==> options[|options| - |catalog|..] == KeywordOptions(catalog))
  {
    ClassifyAfterLabel(prior, line, i, catalog);
  }

  /** The resolved keyword of a cell after the row label: present only for
      the keyword cell, and then the first catalog entry equal to the
      contents ignoring case. */
  lemma KeywordResolution(prior: CellState, line: Line, i: nat, catalog: seq<KnownKeyword>)
    requires 1 <= i < |line|
    ensures var r := GetKeywordInThisCell(prior, line, i, catalog);
      && (r.Some? ==> IsKeywordCell(line, i) && EqualsIgnoreCase(r.value.autocompleteText, line[i]))
      && (IsKeywordCell(line, i) && (exists k :: 0 <= k < |catalog| && EqualsIgnoreCase(catalog[k].autocompleteText, line[i]))
          ==> r.Some?)
  {
    ClassifyAfterLabel(prior, line, i, catalog);
    var r := GetKeywordInThisCell(prior, line, i, catalog);
    if r.Some? {
      LowerEqualsIffIgnoreCase(r.value.autocompleteText, line[i]);
    }
    if IsKeywordCell(line, i) {
      forall k | 0 <= k < |catalog| && EqualsIgnoreCase(catalog[k].autocompleteText, line[i])
        ensures FirstMatch(catalog, line[i]).Some?
      {
        LowerEqualsIffIgnoreCase(catalog[k].autocompleteText, line[i]);
      }
    }
  }
}
