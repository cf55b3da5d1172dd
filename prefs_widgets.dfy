/** The behaviour of the preference widgets of prefsWidgets.js: drag-and-drop
    reordering of rows (DragRow), the edit popover of a row (EditEntriesBox),
    the list that drives a stack of settings panels (StackListBox) and the
    counting icon grid (IconGrid).

    Widgets are identified by a WidgetId.  A list box holds its rows as a
    sequence of ids; the toolkit calls it builds on (get_index, remove,
    insert, show, drag_highlight_row, select_row) are methods of the classes
    below, and the signal handlers the source connects are methods that call
    them.  Signals are appended to a SignalLog in emission order. */
module PrefsWidgets {
  import opened RowLists
  import opened Options

  type WidgetId = nat

  /** A signal emitted by one of the widgets, with the row it concerns. */
  datatype Signal =
    | DragDropDone(target: WidgetId)   // DragRow 'drag-drop-done', emitted by the drop target
    | Modify(row: WidgetId)            // EditEntriesBox 'modify'
    | Change(row: WidgetId)            // EditEntriesBox 'change'
    | RowChanged(row: WidgetId)        // EditEntriesBox 'row-changed'
    | RowDeleted(row: WidgetId)        // EditEntriesBox 'row-deleted'

  /** The signals emitted so far, oldest first. */
  class SignalLog {
    var events: seq<Signal>

    constructor ()
      ensures events == []
    {
      events := [];
    }

    method Emit(s: Signal)
      modifies this
      ensures events == old(events) + [s]
    {
      events := events + [s];
    }
  }

  /** The platform's side of one drop (a Gdk.Drop).  The drop handler asks for
      the dragged value; once it has been read, the callback finishes the drop
      with the MOVE action, which ends the drag for the platform. */
  class GdkDrop {
    var valueRequested: bool
    var finishedWithMove: bool

    constructor ()
      ensures !valueRequested && !finishedWithMove
    {
      valueRequested, finishedWithMove := false, false;
    }

    /** read_value_async: the request; its callback is OnValueRead. */
    method ReadValueAsync()
      modifies this`valueRequested
      ensures valueRequested
    {
      valueRequested := true;
    }

    /** The read_value_async callback: gdkDrop.finish(Gdk.DragAction.MOVE). */
    method OnValueRead()
      requires valueRequested
      modifies this`finishedWithMove
      ensures finishedWithMove
    {
      finishedWithMove := true;
    }
  }

  /** The ghost image createDragRow builds for a drag: a one-row list of the
      dragged row's allocated size showing that row. */
  datatype DragVisual = DragVisual(row: WidgetId, width: int, height: int)

  /** A Gtk.ListBox whose rows are DragRows, with the drag-session fields the
      DragRow handlers store on it. */
  class ListBox {
    var rows: seq<WidgetId>
    var shown: bool
    var highlighted: Option<WidgetId>
    // The drag session: which row is being dragged, where the cursor
    // grabbed it, its ghost image, and the index of the row last entered.
    var dragRow: Option<WidgetId>
    var dragX: real
    var dragY: real
    var dragWidget: Option<DragVisual>
    var startIndex: int

    ghost predicate Valid()
      reads this
    {
      Distinct(rows)
    }

    constructor (initial: seq<WidgetId>)
      requires Distinct(initial)
      ensures Valid() && rows == initial
      ensures dragRow == None && dragWidget == None && highlighted == None
    {
      rows := initial;
      shown := false;
      highlighted := None;
      dragRow := None;
      dragX, dragY := 0.0, 0.0;
      dragWidget := None;
      startIndex := -1;
    }

    /** get_index() of a row of this list. */
    function GetIndex(row: WidgetId): (i: int)
      reads this
      ensures i == -1 <==> row !in rows
      ensures 0 <= i ==> i < |rows| && rows[i] == row
    {
      IndexOf(rows, row)
    }

    /** remove(row). */
    method Remove(row: WidgetId)
      modifies this`rows
      ensures rows == RemoveRow(old(rows), row)
    {
      rows := RemoveRow(rows, row);
    }

    /** insert(row, pos). */
    method Insert(row: WidgetId, pos: int)
      modifies this`rows
      ensures rows == InsertAt(old(rows), pos, row)
    {
      rows := InsertAt(rows, pos, row);
    }

    /** show(). */
    method Show()
      modifies this`shown
      ensures shown
    {
      shown := true;
    }

    /** drag_highlight_row(row): at most one row is highlighted. */
    method HighlightRow(row: WidgetId)
      modifies this`highlighted
      ensures highlighted == Some(row)
    {
      highlighted := Some(row);
    }

    /** drag_unhighlight_row(). */
    method UnhighlightRow()
      modifies this`highlighted
      ensures highlighted == None
    {
      highlighted := None;
    }
  }

  /** A row that can be dragged onto another row of the same list.  Its drag
      source and drop target handlers are the methods below; `list` is the
      row's parent, and each handler requires the row to be one of its
      children, as get_parent() would otherwise return null. */
  class DragRow {
    const id: WidgetId
    const list: ListBox
    const log: SignalLog

    constructor (id: WidgetId, list: ListBox, log: SignalLog)
      ensures this.id == id && this.list == list && this.log == log
    {
      this.id, this.list, this.log := id, list, log;
    }

    /** Drag source 'prepare': the cursor offset inside the row is stored on
        the list for the hotspot. */
    method OnPrepare(x: real, y: real)
      requires id in list.rows
      modifies list`dragX, list`dragY
      ensures list.dragX == x && list.dragY == y
    {
      list.dragX := x;
      list.dragY := y;
    }

    /** Drag source 'drag-begin': the list records this row as the dragged
        one and the ghost image built for the row's allocation; the drag icon
        shows that image with its hotspot at the stored cursor offset. */
    method OnDragBegin(width: int, height: int) returns (icon: DragVisual, hotspotX: real, hotspotY: real)
      requires id in list.rows
      modifies list`dragRow, list`dragWidget
      ensures list.dragRow == Some(id)
      ensures icon == DragVisual(id, width, height) && list.dragWidget == Some(icon)
      ensures hotspotX == list.dragX && hotspotY == list.dragY
    {
      list.dragRow := Some(id);
      icon := DragVisual(id, width, height);
      list.dragWidget := Some(icon);
      hotspotX, hotspotY := list.dragX, list.dragY;
    }

    /** Drag source 'drag-end', with or without a drop: the ghost image is
        released and no row stays highlighted. */
    method OnDragEnd()
      requires id in list.rows
      modifies list`dragWidget, list`highlighted
      ensures list.dragWidget == None && list.highlighted == None
    {
      list.dragWidget := None;
      list.UnhighlightRow();
    }

    /** Drop target 'drag-enter': the list remembers the entered row's index
        and highlights it.  The list is never inside a scrolled window, so
        the handler always returns at its first return statement. */
    method OnDragEnter() returns (r: bool)
      requires id in list.rows
      modifies list`startIndex, list`highlighted
      ensures 0 <= list.startIndex < |list.rows| && list.rows[list.startIndex] == id
      ensures list.highlighted == Some(id)
      ensures r
    {
      list.startIndex := list.GetIndex(id);
      list.HighlightRow(id);
      r := true;
    }

    /** Drop target 'drag-leave'. */
    method OnDragLeave()
      requires id in list.rows
      modifies list`highlighted
      ensures list.highlighted == None
    {
      list.UnhighlightRow();
    }

    /** Drop target 'drop' on this row.  Dropped on itself, the list stays as
        it is and nothing is emitted; otherwise the dragged row is removed and
        re-inserted at this row's former index, and 'drag-drop-done' is
        emitted once.  Either way the dragged value is requested so that the
        platform drop can be finished. */
    method OnDrop(drop: GdkDrop) returns (handled: bool)
      requires list.Valid() && id in list.rows
      requires list.dragRow.Some? && list.dragRow.value in list.rows
      modifies list`rows, list`shown, drop`valueRequested, log
      ensures list.Valid()
      ensures var s := old(list.rows);
        var dragged := list.dragRow.value;
        if dragged == id then
          && list.rows == s
          && list.shown == old(list.shown)
          && log.events == old(log.events)
        else
          && list.rows == Moved(s, IndexOf(s, dragged), IndexOf(s, id))
          && list.shown
          && log.events == old(log.events) + [DragDropDone(id)]
      ensures drop.valueRequested
      ensures handled
    {
      ghost var s := list.rows;
      var index := list.GetIndex(id);
      var dragged := list.dragRow.value;
      var from := list.GetIndex(dragged);
      IndexOfDistinct(s, from);
      if index == from {
        drop.ReadValueAsync();
        return true;
      }
      RemoveRowIsRemoveAt(s, from);
      list.Remove(dragged);
      list.Show();
      list.Insert(dragged, index);
      MovedPermutes(s, from, index);
      drop.ReadValueAsync();
      log.Emit(DragDropDone(id));
      handled := true;
    }
  }

  /** The edit button of a row and its popover of actions.  `frameRow` is the
      row the box belongs to and `parent` that row's list; the Modify, Change
      and Delete entries exist only when the box was built with them. */
  class EditEntriesBox {
    const frameRow: WidgetId
    const parent: ListBox
    const log: SignalLog
    const hasModifyButton: bool
    const hasChangeButton: bool
    const hasDeleteButton: bool
    var popoverOpen: bool

    constructor (frameRow: WidgetId, parent: ListBox, log: SignalLog,
                 modifyButton: bool, changeButton: bool, deleteButton: bool)
      ensures this.frameRow == frameRow && this.parent == parent && this.log == log
      ensures hasModifyButton == modifyButton && hasChangeButton == changeButton
      ensures hasDeleteButton == deleteButton && !popoverOpen
    {
      this.frameRow, this.parent, this.log := frameRow, parent, log;
      hasModifyButton, hasChangeButton, hasDeleteButton := modifyButton, changeButton, deleteButton;
      popoverOpen := false;
    }

    /** Move Up: the row trades places with the one above it, unless it is
        first; 'row-changed' is emitted in both cases. */
    method OnMoveUp()
      requires parent.Valid() && frameRow in parent.rows
      modifies parent`rows, parent`shown, this`popoverOpen, log
      ensures parent.Valid()
      ensures var s := old(parent.rows);
        var i := IndexOf(s, frameRow);
        parent.rows == if i > 0 then Moved(s, i, i - 1) else s
      ensures parent.shown && !popoverOpen
      ensures log.events == old(log.events) + [RowChanged(frameRow)]
    {
      ghost var s := parent.rows;
      var index := parent.GetIndex(frameRow);
      if index > 0 {
        IndexOfDistinct(s, index);
        RemoveRowIsRemoveAt(s, index);
        parent.Remove(frameRow);
        parent.Insert(frameRow, index - 1);
        MovedPermutes(s, index, index - 1);
      }
      parent.Show();
      popoverOpen := false;
      log.Emit(RowChanged(frameRow));
    }

    /** Move Down: the row trades places with the one below it, unless it is
        last; 'row-changed' is emitted in both cases. */
    method OnMoveDown()
      requires parent.Valid() && frameRow in parent.rows
      modifies parent`rows, parent`shown, this`popoverOpen, log
      ensures parent.Valid()
      ensures var s := old(parent.rows);
        var i := IndexOf(s, frameRow);
        parent.rows == if i + 1 < |s| then Moved(s, i, i + 1) else s
      ensures parent.shown && !popoverOpen
      ensures log.events == old(log.events) + [RowChanged(frameRow)]
    {
      ghost var s := parent.rows;
      var children := parent.rows;
      var index := parent.GetIndex(frameRow);
      if index + 1 < |children| {
        IndexOfDistinct(s, index);
        RemoveRowIsRemoveAt(s, index);
        parent.Remove(frameRow);
        parent.Insert(frameRow, index + 1);
        MovedPermutes(s, index, index + 1);
      }
      parent.Show();
      popoverOpen := false;
      log.Emit(RowChanged(frameRow));
    }

    /** Delete: the row leaves its list and 'row-deleted' is emitted. */
    method OnDelete()
      requires hasDeleteButton
      requires parent.Valid() && frameRow in parent.rows
      modifies parent`rows, parent`shown, this`popoverOpen, log
      ensures parent.Valid()
      ensures parent.rows == RemoveRow(old(parent.rows), frameRow)
      ensures parent.shown && !popoverOpen
      ensures log.events == old(log.events) + [RowDeleted(frameRow)]
    {
      RemoveRowSpec(parent.rows, frameRow);
      parent.Remove(frameRow);
      parent.Show();
      popoverOpen := false;
      log.Emit(RowDeleted(frameRow));
    }

    /** Modify: the popover closes and 'modify' is emitted. */
    method OnModify()
      requires hasModifyButton
      modifies this`popoverOpen, log
      ensures !popoverOpen && log.events == old(log.events) + [Modify(frameRow)]
    {
      popoverOpen := false;
      log.Emit(Modify(frameRow));
    }

    /** Change: the popover closes and 'change' is emitted. */
    method OnChange()
      requires hasChangeButton
      modifies this`popoverOpen, log
      ensures !popoverOpen && log.events == old(log.events) + [Change(frameRow)]
    {
      popoverOpen := false;
      log.Emit(Change(frameRow));
    }
  }

  /** A row of a StackListBox, with the properties addRow attaches to it. */
  datatype StackRow = StackRow(
    id: WidgetId,
    stackName: string,
    translatableName: string,
    iconName: string,
    nextPage: Option<WidgetId>)

  /** The header markup shown for a selected row. */
  function Bold(s: string): string {
    "<b>" + s + "</b>"
  }

  /** The widget a StackListBox drives: its settings stack and header label. */
  class SettingsFrame {
    var visibleChildName: string
    var headerLabel: string

    constructor (visibleChildName: string, headerLabel: string)
      ensures this.visibleChildName == visibleChildName && this.headerLabel == headerLabel
    {
      this.visibleChildName, this.headerLabel := visibleChildName, headerLabel;
    }
  }

  /** The position of the last row named `name`, or -1 when none is. */
  function LastNamed(rows: seq<StackRow>, name: string): (k: int)
    ensures -1 <= k < |rows|
    ensures 0 <= k ==> rows[k].stackName == name
    ensures forall m :: k < m < |rows| ==> rows[m].stackName != name
  {
    if |rows| == 0 then -1
    else if rows[|rows| - 1].stackName == name then |rows| - 1
    else LastNamed(rows[..|rows| - 1], name)
  }

  /** A Gtk.ListBox of StackRows bound to a settings stack: selecting a row
      shows the stack child named by the row and puts the row's name, in
      bold, into the header label.  `headerIndices` is the index array of the
      separator header function, once one has been installed. */
  class StackListBox {
    var rows: seq<StackRow>
    var selected: Option<StackRow>
    var headerIndices: Option<seq<int>>
    var separated: set<WidgetId>
    var nextId: WidgetId
    const frame: SettingsFrame

    /** The frame shows what selecting `row` displays. */
    ghost predicate Shows(row: StackRow)
      reads frame
    {
      frame.visibleChildName == row.stackName && frame.headerLabel == Bold(row.translatableName)
    }

    ghost predicate Valid()
      reads this, frame
    {
      && Distinct(rows)
      && (forall r :: r in rows ==> r.id < nextId)
      && (selected.Some? ==> selected.value in rows && Shows(selected.value))
    }

    constructor (frame: SettingsFrame)
      ensures Valid() && this.frame == frame
      ensures rows == [] && selected == None && headerIndices == None && separated == {}
    {
      rows := [];
      selected := None;
      headerIndices := None;
      separated := {};
      nextId := 0;
      this.frame := frame;
    }

    /** The 'row-selected' handler: a real row is shown in the stack and
        named in the header; a null row (nothing selected) changes nothing. */
    method OnRowSelected(row: Option<StackRow>)
      modifies frame
      ensures row.Some? ==> Shows(row.value)
      ensures row.None? ==> unchanged(frame)
    {
      if row.Some? {
        frame.headerLabel := Bold(row.value.translatableName);
        frame.visibleChildName := row.value.stackName;
      }
    }

    /** select_row(row): the selection becomes `row` (null clears it), and
        'row-selected' is emitted only when the selection changed. */
    method SelectRow(row: Option<StackRow>)
      requires Valid()
      requires row.Some? ==> row.value in rows
      modifies this`selected, frame
      ensures Valid() && selected == row
      ensures old(selected) == row ==> unchanged(frame)
      ensures row.None? ==> unchanged(frame)
    {
      if row.None? {
        if selected.Some? {
          selected := None;
          OnRowSelected(None);
        }
      } else if selected != row {
        selected := row;
        OnRowSelected(row);
      }
    }

    /** addRow: a new row with a fresh id is appended. */
    method AddRow(name: string, translatableName: string, iconName: string, nextPage: Option<WidgetId>)
      requires Valid()
      modifies this`rows, this`nextId
      ensures Valid()
      ensures rows == old(rows) + [StackRow(old(nextId), name, translatableName, iconName, nextPage)]
      ensures nextId > old(nextId)
    {
      var row := StackRow(nextId, name, translatableName, iconName, nextPage);
      assert row !in rows;
      rows := rows + [row];
      nextId := nextId + 1;
    }

    /** selectRowAtIndex: a position outside the list selects nothing. */
    method SelectRowAtIndex(index: int)
      requires Valid()
      modifies this`selected, frame
      ensures Valid()
      ensures selected == if 0 <= index < |rows| then Some(rows[index]) else None
      ensures !(0 <= index < |rows|) ==> unchanged(frame)
    {
      var row := if 0 <= index < |rows| then Some(rows[index]) else None;
      SelectRow(row);
    }

    /** selectFirstRow. */
    method SelectFirstRow()
      requires Valid()
      modifies this`selected, frame
      ensures Valid()
      ensures selected == if |rows| > 0 then Some(rows[0]) else None
      ensures |rows| == 0 ==> unchanged(frame)
    {
      SelectRowAtIndex(0);
    }

    /** selectRowByName: every row with that stack name is selected in turn,
        so the last one ends up selected; with no such row the selection and
        the frame stay as they were. */
    method SelectRowByName(name: string)
      requires Valid()
      modifies this`selected, frame
      ensures Valid()
      ensures var k := LastNamed(rows, name);
        selected == if k >= 0 then Some(rows[k]) else old(selected)
      ensures LastNamed(rows, name) < 0 ==> unchanged(frame)
    {
      var children := rows;
      var i := 0;
      while i < |children|
        invariant 0 <= i <= |children| && children == rows
        invariant Valid()
        invariant var k := LastNamed(children[..i], name);
          selected == if k >= 0 then Some(children[k]) else old(selected)
        invariant LastNamed(children[..i], name) < 0 ==> unchanged(frame)
      {
        assert children[..i + 1][..i] == children[..i];
        if children[i].stackName == name {
          SelectRow(Some(children[i]));
        }
        i := i + 1;
      }
      assert children[..i] == children;
    }

    /** setSeparatorIndices: installs a header function that puts a separator
        above each row whose index is in `indices`, and the list refreshes
        every row's header with it. */
    method SetSeparatorIndices(indices: seq<int>)
      requires Valid()
      modifies this`headerIndices, this`separated
      ensures Valid() && headerIndices == Some(indices)
      ensures separated == old(separated) + set k | 0 <= k < |rows| && k in indices :: rows[k].id
    {
      headerIndices := Some(indices);
      UpdateHeaders();
    }

    /** The list refreshing the header of every row. */
    method UpdateHeaders()
      requires Valid()
      modifies this`separated
      ensures Valid()
      ensures separated == old(separated) +
        (if headerIndices.Some?
         then set k | 0 <= k < |rows| && k in headerIndices.value :: rows[k].id
         else {})
    {
      var j := 0;
      while j < |rows|
        invariant 0 <= j <= |rows| && Valid()
        invariant separated == old(separated) +
          (if headerIndices.Some?
           then set k | 0 <= k < j && k in headerIndices.value :: rows[k].id
           else {})
      {
        IndexOfDistinct(rows, j);
        UpdateHeader(rows[j]);
        j := j + 1;
      }
    }

    /** The header function applied to one row: each entry of the index
        array equal to the row's index gives it a separator header.  Without
        a header function the header is left alone. */
    method UpdateHeader(row: StackRow)
      requires Valid() && row in rows
      modifies this`separated
      ensures Valid()
      ensures separated == old(separated) +
        (if headerIndices.Some? && IndexOf(rows, row) in headerIndices.value then {row.id} else {})
    {
      if headerIndices.None? {
        return;
      }
      var indexArray := headerIndices.value;
      var i := 0;
      while i < |indexArray|
        invariant 0 <= i <= |indexArray| && Valid()
        invariant separated == old(separated) +
          (if IndexOf(rows, row) in indexArray[..i] then {row.id} else {})
      {
        assert indexArray[..i + 1] == indexArray[..i] + [indexArray[i]];
        if IndexOf(rows, row) == indexArray[i] {
          separated := separated + {row.id};
        }
        i := i + 1;
      }
      assert indexArray[..i] == indexArray;
    }
  }

  /** A Gtk.FlowBox that counts the children added through `add`. */
  class IconGrid {
    var children: seq<WidgetId>
    var childrenCount: int

    ghost predicate Valid()
      reads this
    {
      childrenCount == |children|
    }

    constructor ()
      ensures Valid() && children == []
    {
      children := [];
      childrenCount := 0;
    }

    /** add(widget): appended at the end (position -1), and counted. */
    method Add(widget: WidgetId)
      requires Valid()
      modifies this
      ensures Valid()
      ensures children == old(children) + [widget]
      ensures childrenCount == old(childrenCount) + 1
    {
      children := InsertAt(children, -1, widget);
      childrenCount := childrenCount + 1;
    }
  }
}
