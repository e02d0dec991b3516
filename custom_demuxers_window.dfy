/**
 * The editing logic of `src/app/ui/custom_demuxers_window.rs` with the egui
 * drawing stripped away. One call of `WindowUi` is one UI frame that
 * receives at most one abstract event (a click, a focus change or an edit of
 * a text field); the rule table is `cfg.customDemuxers`, edited in place.
 */
module CustomDemuxersWindow {
  import opened Wrappers
  import opened RustStr
  import opened Config

  datatype CustomDemuxTab = Commands | Predicates

  datatype EditTargetWhich = CommandField | MpvArgsField

  /** The single "being edited" slot: which field, keyed by the `idx` the panel was drawn with. */
  datatype EditTarget = EditTarget(index: nat, which: EditTargetWhich)

  /** A snapshot of the window's fields (all but `open`). */
  datatype EditorState = EditorState(
    editBuffer: string,
    editTarget: Option<EditTarget>,
    errorLabel: string,
    selectedIdx: nat,
    tab: CustomDemuxTab,
    selectedPredIdx: nat)

  /** The buttons of one table row. */
  datatype RowButton = Select | Delete | HigherPrio | LowerPrio | CloneRow

  /** What can happen in the panel of the selected entry. */
  datatype PanelEvent =
    | NameEdited(name: string)
    | TabClicked(tab: CustomDemuxTab)
    | CommandFocusGained
    | CommandTyped(text: string)
    | CommandFocusLost
    | ArgsFocusGained
    | ArgsTyped(text: string)
    | ArgsFocusLost
    | PredicateLabelClicked(i: nat)
    | AddPredicateClicked
    | PredicateKindChosen(kind: PredicateKind)
    | PredicateTextEdited(text: string)
    | CaseSensitiveToggled(on: bool)
    | RemovePredicateClicked

  /** The input of one frame. */
  datatype UiEvent =
    | Idle
    | RowClicked(row: nat, button: RowButton)
    | AddClicked
    | Panel(event: PanelEvent)

  /** The deferred table operation `window_ui` records while drawing the rows. */
  datatype Op = NoOp | Swap(a: nat, b: nat) | CloneAt(at: nat)

  // ---------------------------------------------------------------------------
  // The table edits

  /** `s` without its element at `i`, the others in their order. */
  function Removed<T>(s: seq<T>, i: nat): (r: seq<T>)
    requires i < |s|
    ensures |r| == |s| - 1
    ensures forall j :: 0 <= j < i ==> r[j] == s[j]
    ensures forall j :: i <= j < |r| ==> r[j] == s[j + 1]
  {
    s[..i] + s[i + 1..]
  }

  /** `slice::swap`. */
  function Swapped<T>(s: seq<T>, a: nat, b: nat): (r: seq<T>)
    requires a < |s| && b < |s|
    ensures |r| == |s| && r[a] == s[b] && r[b] == s[a]
    ensures forall j :: 0 <= j < |s| && j != a && j != b ==> r[j] == s[j]
    ensures multiset(r) == multiset(s)
  {
    s[a := s[b]][b := s[a]]
  }

  /** `insert(i, s[i].clone())`: the copy takes position `i`, the original moves to `i + 1`. */
  function ClonedBefore<T>(s: seq<T>, i: nat): (r: seq<T>)
    requires i < |s|
    ensures |r| == |s| + 1
    ensures r[i] == s[i] && r[i + 1] == s[i]
    ensures r[..i] == s[..i] && r[i + 1..] == s[i..]
  {
    s[..i] + [s[i]] + s[i..]
  }

  /** The operation a click on a row button schedules, with the bounds guards of the prio buttons. */
  function RowOp(ev: UiEvent, len: nat): (r: Op)
    ensures r != NoOp ==> ev.RowClicked? && ev.row < len
    ensures r.Swap? ==> r.a == ev.row && r.b < len && (r.b + 1 == r.a || r.b == r.a + 1)
    ensures r.CloneAt? ==> r.at == ev.row
  {
    if ev.RowClicked? && ev.row < len then
      match ev.button
      case HigherPrio => if ev.row > 0 then Swap(ev.row, ev.row - 1) else NoOp
      case LowerPrio => if ev.row < len - 1 then Swap(ev.row, ev.row + 1) else NoOp
      case CloneRow => CloneAt(ev.row)
      case _ => NoOp
    else NoOp
  }

  /** The table after a click on button `button` of row `row`. */
  function TableAfterRow(s: seq<CustomDemuxerEntry>, row: nat, button: RowButton): (r: seq<CustomDemuxerEntry>)
    requires row < |s|
    ensures button == Delete ==> multiset(r) + multiset{s[row]} == multiset(s)
    ensures button == CloneRow ==> multiset(r) == multiset(s) + multiset{s[row]}
    ensures button != Delete && button != CloneRow ==> multiset(r) == multiset(s)
  {
    assert s == s[..row] + [s[row]] + s[row + 1..];
    assert s[row..] == [s[row]] + s[row + 1..];
    match button
    case Select => s
    case Delete => Removed(s, row)
    case HigherPrio => if row > 0 then Swapped(s, row, row - 1) else s
    case LowerPrio => if row < |s| - 1 then Swapped(s, row, row + 1) else s
    case CloneRow => ClonedBefore(s, row)
  }

  // ---------------------------------------------------------------------------
  // The panel of the selected entry

  /** The predicate the "Kind" combo box puts in place. */
  function KindDefault(kind: PredicateKind): Predicate {
    match kind
    case BeginsWithKind => BeginsWith("")
    case HasExtsKind => HasExts(DefaultHasExts())
  }

  /** Typing into the single text field of a predicate. */
  function WithText(p: Predicate, text: string): Predicate {
    match p
    case BeginsWith(_) => BeginsWith(text)
    case HasExts(h) => HasExts(h.(extList := text))
  }

  /**
   * `selected_demuxer_ui` for one event: the new window state and the new
   * selected entry `e`. `idx` is the value the panel is drawn with.
   */
  function PanelStep(st: EditorState, e: CustomDemuxerEntry, idx: nat, ev: PanelEvent)
    : (r: (EditorState, CustomDemuxerEntry))
    ensures r.0.selectedIdx == st.selectedIdx
    ensures r.0.editTarget != st.editTarget && r.0.editTarget.Some? ==> r.0.editTarget.value.index == idx
    ensures r.0.errorLabel != st.errorLabel ==> ev.CommandFocusLost?
    ensures r.1.readerCmd != e.readerCmd ==> ev.CommandFocusLost? && r.0.errorLabel == ""
    ensures || |r.1.predicates| == |e.predicates|
            || (ev.AddPredicateClicked? && |r.1.predicates| == |e.predicates| + 1)
            || (ev.RemovePredicateClicked? && |r.1.predicates| == |e.predicates| - 1)
  {
    var commandTarget := Some(EditTarget(idx, CommandField));
    var argsTarget := Some(EditTarget(idx, MpvArgsField));
    var commands := st.tab == Commands;
    var predicates := st.tab == Predicates;
    var sp := st.selectedPredIdx;
    match ev
    case NameEdited(name) => (st, e.(name := name))
    case TabClicked(tab) => (st.(tab := tab), e)
    case CommandFocusGained =>
      if commands && st.editTarget != commandTarget
      then (st.(editBuffer := Render(e.readerCmd), editTarget := commandTarget), e)
      else (st, e)
    case CommandTyped(text) =>
      if commands && st.editTarget == commandTarget then (st.(editBuffer := text), e) else (st, e)
    case CommandFocusLost =>
      if commands && st.editTarget == commandTarget then
        var cleared := st.(editBuffer := "", editTarget := None);
        match Parse(st.editBuffer)
        case Success(cmd) => (cleared.(errorLabel := ""), e.(readerCmd := cmd))
        case Failure(err) => (cleared.(errorLabel := ErrorMessage(err)), e)
      else (st, e)
    case ArgsFocusGained =>
      if commands && st.editTarget != argsTarget
      then (st.(editBuffer := Join(e.extraMpvArgs), editTarget := argsTarget), e)
      else (st, e)
    case ArgsTyped(text) =>
      if commands && st.editTarget == argsTarget then (st.(editBuffer := text), e) else (st, e)
    case ArgsFocusLost =>
      if commands && st.editTarget == argsTarget
      then (st.(editBuffer := "", editTarget := None), e.(extraMpvArgs := SplitWhitespace(st.editBuffer)))
      else (st, e)
    case PredicateLabelClicked(i) =>
      if predicates && i < |e.predicates| then (st.(selectedPredIdx := i), e) else (st, e)
    case AddPredicateClicked =>
      if predicates then (st, e.(predicates := e.predicates + [HasExts(DefaultHasExts())])) else (st, e)
    case PredicateKindChosen(kind) =>
      if predicates && sp < |e.predicates|
      then (st, e.(predicates := e.predicates[sp := KindDefault(kind)]))
      else (st, e)
    case PredicateTextEdited(text) =>
      if predicates && sp < |e.predicates|
      then (st, e.(predicates := e.predicates[sp := WithText(e.predicates[sp], text)]))
      else (st, e)
    case CaseSensitiveToggled(on) =>
      if predicates && sp < |e.predicates| && e.predicates[sp].HasExts?
      then (st, e.(predicates := e.predicates[sp := HasExts(e.predicates[sp].exts.(caseSensitive := on))]))
      else (st, e)
    case RemovePredicateClicked =>
      if predicates && sp < |e.predicates|
      then (st, e.(predicates := Removed(e.predicates, sp)))
      else (st, e)
  }

  /**
   * One frame of `window_ui`: the row buttons, then "Add", then the panel of
   * the selected entry, which is drawn with `idx` equal to the number of
   * rows the frame started with (the row loop's counter), not with
   * `selectedIdx`.
   */
  function Frame(st: EditorState, s: seq<CustomDemuxerEntry>, ev: UiEvent)
    : (r: (EditorState, seq<CustomDemuxerEntry>))
    ensures |s| - 1 <= |r.1| <= |s| + 1
    ensures r.0.selectedIdx == st.selectedIdx || (ev == RowClicked(r.0.selectedIdx, Select) && r.0.selectedIdx < |s|)
    ensures !ev.Panel? ==>
      r.0.editBuffer == st.editBuffer && r.0.editTarget == st.editTarget && r.0.errorLabel == st.errorLabel
    ensures ev.Panel? ==> |r.1| == |s| && forall j :: 0 <= j < |s| && j != st.selectedIdx ==> r.1[j] == s[j]
  {
    match ev
    case Idle => (st, s)
    case RowClicked(row, button) =>
      if row < |s|
      then (if button == Select then st.(selectedIdx := row) else st, TableAfterRow(s, row, button))
      else (st, s)
    case AddClicked => (st, s + [DefaultEntry()])
    case Panel(p) =>
      if st.selectedIdx < |s| then
        var (st', e') := PanelStep(st, s[st.selectedIdx], |s|, p);
        (st', s[st.selectedIdx := e'])
      else (st, s)
  }

  // ---------------------------------------------------------------------------
  // Properties of the table edits

  /** "Higher prio" on row `row` is undone by "Lower prio" on the row it moved to. */
  lemma HigherThenLowerRestores(s: seq<CustomDemuxerEntry>, row: nat)
    requires 0 < row < |s|
    ensures TableAfterRow(TableAfterRow(s, row, HigherPrio), row - 1, LowerPrio) == s
  {
    var t := TableAfterRow(s, row, HigherPrio);
    var u := TableAfterRow(t, row - 1, LowerPrio);
    assert u == Swapped(t, row - 1, row);
    assert forall j :: 0 <= j < |s| ==> u[j] == s[j];
  }

  /** The prio buttons only reorder: at the edges they do nothing, elsewhere they exchange neighbours. */
  lemma PrioButtonsPermute(s: seq<CustomDemuxerEntry>, row: nat, button: RowButton)
    requires row < |s| && (button == HigherPrio || button == LowerPrio)
    ensures multiset(TableAfterRow(s, row, button)) == multiset(s)
    ensures button == HigherPrio && row == 0 ==> TableAfterRow(s, row, button) == s
    ensures button == LowerPrio && row == |s| - 1 ==> TableAfterRow(s, row, button) == s
  {
  }

  /** Cloning row `row` and then deleting row `row` gives the table back. */
  lemma CloneThenDeleteRestores(s: seq<CustomDemuxerEntry>, row: nat)
    requires row < |s|
    ensures TableAfterRow(TableAfterRow(s, row, CloneRow), row, Delete) == s
  {
    var t := TableAfterRow(TableAfterRow(s, row, CloneRow), row, Delete);
    assert forall j :: 0 <= j < |s| ==> t[j] == s[j];
  }

  /** "Add" followed by deleting the last row gives the table back. */
  lemma AddThenDeleteLastRestores(st: EditorState, s: seq<CustomDemuxerEntry>)
    ensures Frame(st, s, AddClicked).1 == s + [DefaultEntry()]
    ensures
      var (st1, s1) := Frame(st, s, AddClicked);
      Frame(st1, s1, RowClicked(|s|, Delete)) == (st, s)
  {
    assert Removed(s + [DefaultEntry()], |s|) == s;
  }

  // ---------------------------------------------------------------------------
  // Properties of the edit register

  /** The error label only ever holds nothing or the parse error's message. */
  predicate LabelOk(st: EditorState) {
    st.errorLabel == "" || st.errorLabel == ErrorMessage(NoCommandError())
  }

  /** Every frame keeps `LabelOk`. */
  lemma FrameKeepsLabelOk(st: EditorState, s: seq<CustomDemuxerEntry>, ev: UiEvent)
    requires LabelOk(st)
    ensures LabelOk(Frame(st, s, ev).0)
  {
  }

  /**
   * Only the panel changes the edit register, and an edit it starts is
   * keyed by the number of rows, whichever row is selected.
   */
  lemma NewEditTargetIsRowCount(st: EditorState, s: seq<CustomDemuxerEntry>, ev: UiEvent)
    ensures !ev.Panel? ==> Frame(st, s, ev).0.editTarget == st.editTarget
    ensures var t := Frame(st, s, ev).0.editTarget;
            t != st.editTarget && t.Some? ==> t.value.index == |s|
  {
  }

  /**
   * Leaving the command field commits the typed text when it holds a token
   * (the entry gets its parse and the label is cleared), and otherwise keeps
   * the old command and shows the parse error; the register is emptied
   * either way.
   */
  lemma CommandCommit(st: EditorState, e: CustomDemuxerEntry, idx: nat, text: string)
    requires st.tab == Commands && st.editTarget == Some(EditTarget(idx, CommandField))
    ensures
      var (st1, e1) := PanelStep(st, e, idx, CommandTyped(text));
      var (st2, e2) := PanelStep(st1, e1, idx, CommandFocusLost);
      && st2.editBuffer == "" && st2.editTarget == None
      && (!IsBlank(text) ==> e2 == e.(readerCmd := Parse(text).value) && st2.errorLabel == "")
      && (IsBlank(text) ==> e2 == e && st2.errorLabel == ErrorMessage(NoCommandError()))
  {
  }

  /**
   * Focusing the command field and leaving it untouched keeps a well-formed
   * command and clears the label; the default (empty) command cannot be
   * re-parsed, so the label then shows the parse error.
   */
  lemma CommandFocusCycle(st: EditorState, e: CustomDemuxerEntry, idx: nat)
    requires st.tab == Commands && st.editTarget != Some(EditTarget(idx, CommandField))
    ensures
      var (st1, e1) := PanelStep(st, e, idx, CommandFocusGained);
      var (st2, e2) := PanelStep(st1, e1, idx, CommandFocusLost);
      && st2.editBuffer == "" && st2.editTarget == None
      && (WellFormed(e.readerCmd) ==> e2 == e && st2.errorLabel == "")
      && (e.readerCmd == DefaultCommand() ==> e2 == e && st2.errorLabel == ErrorMessage(NoCommandError()))
  {
    if WellFormed(e.readerCmd) {
      RenderParseRoundTrip(e.readerCmd);
    }
    DefaultCommandDoesNotReparse();
  }

  /**
   * Focusing the extra-args field and leaving it untouched keeps the
   * arguments exactly when each of them is a single word.
   */
  lemma ArgsFocusCycle(st: EditorState, e: CustomDemuxerEntry, idx: nat)
    requires st.tab == Commands && st.editTarget != Some(EditTarget(idx, MpvArgsField))
    ensures
      var (st1, e1) := PanelStep(st, e, idx, ArgsFocusGained);
      var (st2, e2) := PanelStep(st1, e1, idx, ArgsFocusLost);
      && st2.editBuffer == "" && st2.editTarget == None
      && (e2 == e <==> forall j :: 0 <= j < |e.extraMpvArgs| ==> IsWord(e.extraMpvArgs[j]))
  {
    if forall j :: 0 <= j < |e.extraMpvArgs| ==> IsWord(e.extraMpvArgs[j]) {
      SplitJoin(e.extraMpvArgs);
    }
  }

  /**
   * Starting to edit one field drops an edit in progress on the other
   * without committing it: the entry is untouched and the slot now names
   * the new field.
   */
  lemma SwitchingFieldAbandonsEdit(st: EditorState, e: CustomDemuxerEntry, idx: nat, text: string)
    requires st.tab == Commands && st.editTarget == Some(EditTarget(idx, CommandField))
    ensures
      var (st1, e1) := PanelStep(st, e, idx, CommandTyped(text));
      var (st2, e2) := PanelStep(st1, e1, idx, ArgsFocusGained);
      && e2 == e
      && st2.editTarget == Some(EditTarget(idx, MpvArgsField))
      && st2.editBuffer == Join(e.extraMpvArgs)
  {
  }

  /**
   * Because the edit slot is keyed by the row count, an edit started on
   * entry 0 is committed into entry 1 if entry 1 is selected before the
   * field loses focus.
   */
  lemma CommandEditFollowsSelection(st: EditorState, a: CustomDemuxerEntry, b: CustomDemuxerEntry)
    requires st.tab == Commands && st.selectedIdx == 0 && st.editTarget == None
    requires WellFormed(a.readerCmd)
    ensures
      var (st1, s1) := Frame(st, [a, b], Panel(CommandFocusGained));
      var (st2, s2) := Frame(st1, s1, RowClicked(1, Select));
      var (st3, s3) := Frame(st2, s2, Panel(CommandFocusLost));
      s3 == [a, b.(readerCmd := a.readerCmd)]
  {
    RenderParseRoundTrip(a.readerCmd);
  }

  /**
   * Leaving the extra-args field stores the typed text split into words,
   * whatever was typed, and empties the register.
   */
  lemma ArgsCommit(st: EditorState, e: CustomDemuxerEntry, idx: nat, text: string)
    requires st.tab == Commands && st.editTarget == Some(EditTarget(idx, MpvArgsField))
    ensures
      var (st1, e1) := PanelStep(st, e, idx, ArgsTyped(text));
      var (st2, e2) := PanelStep(st1, e1, idx, ArgsFocusLost);
      && st2 == st.(editBuffer := "", editTarget := None)
      && e2 == e.(extraMpvArgs := SplitWhitespace(text))
      && (forall j :: 0 <= j < |e2.extraMpvArgs| ==> IsWord(e2.extraMpvArgs[j]))
      && (e2.extraMpvArgs == [] <==> IsBlank(text))
  {
    SplitEmptyIffBlank(text);
  }

  /**
   * Choosing a kind replaces the selected predicate by that kind's empty
   * predicate (its text and case flag are lost); the other predicates stay.
   */
  lemma PredicateKindReset(st: EditorState, e: CustomDemuxerEntry, idx: nat, kind: PredicateKind)
    requires st.tab == Predicates && st.selectedPredIdx < |e.predicates|
    ensures
      var (st1, e1) := PanelStep(st, e, idx, PredicateKindChosen(kind));
      var sp := st.selectedPredIdx;
      && st1 == st
      && |e1.predicates| == |e.predicates|
      && KindOf(e1.predicates[sp]) == kind
      && (e1.predicates[sp] == BeginsWith("") || e1.predicates[sp] == HasExts(HasExtsPredicate("", false)))
      && (forall j :: 0 <= j < |e.predicates| && j != sp ==> e1.predicates[j] == e.predicates[j])
      && e1.(predicates := e.predicates) == e
  {
  }

  /**
   * "Remove" deletes the selected predicate when the selection is in range
   * on the predicates tab, keeping the others in order, and does nothing
   * otherwise.
   */
  lemma RemovePredicateOnlyInRange(st: EditorState, e: CustomDemuxerEntry, idx: nat)
    ensures
      var (st1, e1) := PanelStep(st, e, idx, RemovePredicateClicked);
      var sp := st.selectedPredIdx;
      && st1 == st
      && e1.(predicates := e.predicates) == e
      && (st.tab == Predicates && sp < |e.predicates| ==>
            && |e1.predicates| == |e.predicates| - 1
            && e1.predicates[..sp] == e.predicates[..sp]
            && e1.predicates[sp..] == e.predicates[sp + 1..])
      && (!(st.tab == Predicates && sp < |e.predicates|) ==> e1 == e)
  {
    var (st1, e1) := PanelStep(st, e, idx, RemovePredicateClicked);
    var sp := st.selectedPredIdx;
    if st.tab == Predicates && sp < |e.predicates| {
      assert e1.predicates == Removed(e.predicates, sp);
    }
  }

  /** Adding a predicate and removing it again, with the selection on the new one, gives the entry back. */
  lemma AddThenRemovePredicateRestores(st: EditorState, e: CustomDemuxerEntry, idx: nat)
    requires st.tab == Predicates && st.selectedPredIdx == |e.predicates|
    ensures
      var (st1, e1) := PanelStep(st, e, idx, AddPredicateClicked);
      var (st2, e2) := PanelStep(st1, e1, idx, RemovePredicateClicked);
      e2 == e && st2 == st
  {
    var (st1, e1) := PanelStep(st, e, idx, AddPredicateClicked);
    assert Removed(e1.predicates, |e.predicates|) == e.predicates;
  }

  /**
   * "➕" on the predicates tab appends an empty, case-insensitive extension
   * list, which matches no path; on the other tab it does nothing.
   */
  lemma AddPredicateAppendsEmptyExtList(st: EditorState, e: CustomDemuxerEntry, idx: nat)
    ensures PanelStep(st, e, idx, AddPredicateClicked) ==
      if st.tab == Predicates
      then (st, e.(predicates := e.predicates + [HasExts(HasExtsPredicate("", false))]))
      else (st, e)
    ensures forall path :: !Matches(HasExts(HasExtsPredicate("", false)), path)
  {
    forall path
      ensures !Matches(HasExts(HasExtsPredicate("", false)), path)
    {
      assert HasExtsPredicate("", false) == DefaultHasExts();
    }
  }

  /**
   * Focusing the command field on the commands tab, when the register is
   * not already on it, loads the command's rendering into the buffer and
   * keys the register by `idx`; otherwise nothing changes.
   */
  lemma CommandFocusSeedsRendering(st: EditorState, e: CustomDemuxerEntry, idx: nat)
    ensures PanelStep(st, e, idx, CommandFocusGained) ==
      if st.tab == Commands && st.editTarget != Some(EditTarget(idx, CommandField))
      then (st.(editBuffer := Render(e.readerCmd), editTarget := Some(EditTarget(idx, CommandField))), e)
      else (st, e)
  {
  }

  /** The same for the extra-arguments field, which loads the arguments joined by spaces. */
  lemma ArgsFocusSeedsJoin(st: EditorState, e: CustomDemuxerEntry, idx: nat)
    ensures PanelStep(st, e, idx, ArgsFocusGained) ==
      if st.tab == Commands && st.editTarget != Some(EditTarget(idx, MpvArgsField))
      then (st.(editBuffer := Join(e.extraMpvArgs), editTarget := Some(EditTarget(idx, MpvArgsField))), e)
      else (st, e)
  {
  }

  // ---------------------------------------------------------------------------
  // The window

  class CustomDemuxersWindow {
    var editBuffer: string
    var editTarget: Option<EditTarget>
    var errorLabel: string
    var selectedIdx: nat
    var tab: CustomDemuxTab
    var selectedPredIdx: nat

    function State(): EditorState
      reads this
    {
      EditorState(editBuffer, editTarget, errorLabel, selectedIdx, tab, selectedPredIdx)
    }

    /** `CustomDemuxersWindow::default()`. */
    constructor ()
      ensures State() == EditorState("", None, "", 0, Commands, 0)
    {
      editBuffer := "";
      editTarget := None;
      errorLabel := "";
      selectedIdx := 0;
      tab := Commands;
      selectedPredIdx := 0;
    }

    /**
     * The `retain_mut` pass over the rows: every row is visited with its
     * original index, a click on "Delete" drops that row, "Select" moves the
     * selection, and the other buttons only record an operation.
     */
    method RowsUi(cfg: Config, ev: UiEvent) returns (op: Op, idx: nat)
      modifies this`selectedIdx, cfg`customDemuxers
      ensures idx == |old(cfg.customDemuxers)|
      ensures op == RowOp(ev, idx)
      ensures cfg.customDemuxers ==
        if ev.RowClicked? && ev.button == Delete && ev.row < idx
        then Removed(old(cfg.customDemuxers), ev.row)
        else old(cfg.customDemuxers)
      ensures selectedIdx ==
        if ev.RowClicked? && ev.button == Select && ev.row < idx then ev.row else old(selectedIdx)
    {
      var entries := cfg.customDemuxers;
      var len := |entries|;
      var deleting := ev.RowClicked? && ev.button == Delete;
      var kept: seq<CustomDemuxerEntry> := [];
      op := NoOp;
      idx := 0;
      while idx < len
        invariant idx <= len
        invariant kept == if deleting && ev.row < idx then Removed(entries[..idx], ev.row) else entries[..idx]
        invariant op == if ev.RowClicked? && ev.row < idx then RowOp(ev, len) else NoOp
        invariant selectedIdx ==
          if ev.RowClicked? && ev.button == Select && ev.row < idx then ev.row else old(selectedIdx)
      {
        var retain := true;
        if ev == RowClicked(idx, Select) {
          selectedIdx := idx;
        }
        if ev == RowClicked(idx, Delete) {
          retain := false;
        }
        if ev == RowClicked(idx, HigherPrio) && idx > 0 {
          op := Swap(idx, idx - 1);
        }
        if ev == RowClicked(idx, LowerPrio) && idx < len - 1 {
          op := Swap(idx, idx + 1);
        }
        if ev == RowClicked(idx, CloneRow) {
          op := CloneAt(idx);
        }
        if retain {
          kept := kept + [entries[idx]];
        }
        assert entries[..idx + 1] == entries[..idx] + [entries[idx]];
        idx := idx + 1;
      }
      assert entries[..len] == entries;
      cfg.customDemuxers := kept;
    }

    /** `selected_demuxer_ui` for the entry at `selectedIdx`, drawn with `idx`. */
    method SelectedDemuxerUi(cfg: Config, idx: nat, ev: PanelEvent)
      requires selectedIdx < |cfg.customDemuxers|
      modifies this, cfg`customDemuxers
      ensures
        var (st, e) := PanelStep(old(State()), old(cfg.customDemuxers[selectedIdx]), idx, ev);
        State() == st && cfg.customDemuxers == old(cfg.customDemuxers)[old(selectedIdx) := e]
    {
      var custom := cfg.customDemuxers[selectedIdx];
      match ev {
        case NameEdited(name) =>
          custom := custom.(name := name);
        case TabClicked(t) =>
          tab := t;
        case _ =>
          if tab == Commands {
            custom := CommandsTabUi(custom, idx, ev);
          } else {
            custom := PredicatesTabUi(custom, idx, ev);
          }
      }
      cfg.customDemuxers := cfg.customDemuxers[selectedIdx := custom];
    }

    /** The "Commands" tab: the reader command and extra-argument fields, sharing the edit register. */
    method CommandsTabUi(custom: CustomDemuxerEntry, idx: nat, ev: PanelEvent) returns (r: CustomDemuxerEntry)
      requires tab == Commands && !ev.NameEdited? && !ev.TabClicked?
      modifies this`editBuffer, this`editTarget, this`errorLabel
      ensures (State(), r) == PanelStep(old(State()), custom, idx, ev)
    {
      r := custom;
      match ev {
        case CommandFocusGained =>
          if editTarget != Some(EditTarget(idx, CommandField)) {
            editBuffer := ToString(custom.readerCmd);
            editTarget := Some(EditTarget(idx, CommandField));
          }
        case CommandTyped(text) =>
          if editTarget == Some(EditTarget(idx, CommandField)) {
            editBuffer := text;
          }
        case CommandFocusLost =>
          if editTarget == Some(EditTarget(idx, CommandField)) {
            var parsed := FromStr(editBuffer);
            match parsed {
              case Success(cmd) =>
                r := custom.(readerCmd := cmd);
                errorLabel := "";
              case Failure(err) =>
                errorLabel := ErrorMessage(err);
            }
            editBuffer := "";
            editTarget := None;
          }
        case ArgsFocusGained =>
          if editTarget != Some(EditTarget(idx, MpvArgsField)) {
            editBuffer := Join(custom.extraMpvArgs);
            editTarget := Some(EditTarget(idx, MpvArgsField));
          }
        case ArgsTyped(text) =>
          if editTarget == Some(EditTarget(idx, MpvArgsField)) {
            editBuffer := text;
          }
        case ArgsFocusLost =>
          if editTarget == Some(EditTarget(idx, MpvArgsField)) {
            r := custom.(extraMpvArgs := SplitWhitespace(editBuffer));
            editBuffer := "";
            editTarget := None;
          }
        case _ =>
      }
    }

    /** The "Predicates" tab: choosing, adding, changing and removing the rule's predicates. */
    method PredicatesTabUi(custom: CustomDemuxerEntry, idx: nat, ev: PanelEvent) returns (r: CustomDemuxerEntry)
      requires tab == Predicates && !ev.NameEdited? && !ev.TabClicked?
      modifies this`selectedPredIdx
      ensures (State(), r) == PanelStep(old(State()), custom, idx, ev)
    {
      r := custom;
      var preds := custom.predicates;
      match ev {
        case PredicateLabelClicked(i) =>
          if i < |preds| {
            selectedPredIdx := i;
          }
        case AddPredicateClicked =>
          r := custom.(predicates := preds + [HasExts(DefaultHasExts())]);
        case PredicateKindChosen(kind) =>
          if selectedPredIdx < |preds| {
            r := custom.(predicates := preds[selectedPredIdx := KindDefault(kind)]);
          }
        case PredicateTextEdited(text) =>
          if selectedPredIdx < |preds| {
            r := custom.(predicates := preds[selectedPredIdx := WithText(preds[selectedPredIdx], text)]);
          }
        case CaseSensitiveToggled(on) =>
          if selectedPredIdx < |preds| && preds[selectedPredIdx].HasExts? {
            var h := preds[selectedPredIdx].exts;
            r := custom.(predicates := preds[selectedPredIdx := HasExts(h.(caseSensitive := on))]);
          }
        case RemovePredicateClicked =>
          if selectedPredIdx < |preds| {
            r := custom.(predicates := Removed(preds, selectedPredIdx));
          }
        case _ =>
      }
    }

    /** `window_ui` up to the panel: the rows, the deferred operation and "Add". */
    method TableUi(cfg: Config, ev: UiEvent) returns (idx: nat)
      modifies this`selectedIdx, cfg`customDemuxers
      ensures idx == |old(cfg.customDemuxers)|
      ensures !ev.Panel? ==> (State(), cfg.customDemuxers) == Frame(old(State()), old(cfg.customDemuxers), ev)
      ensures ev.Panel? ==> State() == old(State()) && cfg.customDemuxers == old(cfg.customDemuxers)
    {
      var op;
      op, idx := RowsUi(cfg, ev);
      match op {
        case NoOp =>
        case Swap(a, b) =>
          cfg.customDemuxers := Swapped(cfg.customDemuxers, a, b);
        case CloneAt(i) =>
          cfg.customDemuxers := ClonedBefore(cfg.customDemuxers, i);
      }
      if ev.RowClicked? && ev.row < idx {
        assert cfg.customDemuxers == TableAfterRow(old(cfg.customDemuxers), ev.row, ev.button);
      } else {
        assert cfg.customDemuxers == old(cfg.customDemuxers);
      }
      if ev.AddClicked? {
        cfg.customDemuxers := cfg.customDemuxers + [DefaultEntry()];
      }
    }

    /** `window_ui`: one frame with one event. */
    method WindowUi(cfg: Config, ev: UiEvent)
      modifies this, cfg`customDemuxers
      ensures (State(), cfg.customDemuxers) == Frame(old(State()), old(cfg.customDemuxers), ev)
    {
      var idx := TableUi(cfg, ev);
      if selectedIdx < |cfg.customDemuxers| && ev.Panel? {
        SelectedDemuxerUi(cfg, idx, ev.event);
      }
    }
  }
}
