/**
 * The visual editor's session controller: the state of one editing session, the
 * events the web view delivers, the options menu actions and the result returned
 * to the caller.
 */
module VisualEditor {
  import opened Wrappers
  import opened Selection
  import opened ModelCss

  /**
   * The startup bundle. Each entry is None when the bundle does not hold it
   * (a Java null): the field text, its index, the text of every field of the note
   * and the id of the note type.
   */
  datatype Extras = Extras(
    field: Option<string>,
    fieldIndex: Option<int>,
    allFields: Option<seq<string>>,
    modelId: Option<int>)

  /** The four entries of the bundle are present (the editor view is looked up after them). */
  predicate EntriesPresent(extras: Option<Extras>)
  {
    && extras.Some?
    && extras.value.field.Some?
    && extras.value.fieldIndex.Some?
    && extras.value.allFields.Some?
    && extras.value.modelId.Some?
  }

  /** Startup succeeds exactly when the bundle, its four entries and the editor view are all present. */
  predicate StartupComplete(extras: Option<Extras>, editorViewFound: bool)
  {
    EntriesPresent(extras) && editorViewFound
  }

  /** What the session hands back to the caller: the edited text and its field index, or nothing. */
  datatype EditorResult = Saved(text: string, fieldIndex: int) | Cancelled

  /** Commands sent to the web view; what the web view does with them is not modelled. */
  datatype WebViewCommand =
    | InjectCss(css: string)
    | SetHtml(html: string)
    | DeleteImage(guid: string)
    | InsertCloze(clozeId: int)

  /** Options menu items: `action_save`, `action_image_delete`, and any other item id. */
  datatype MenuAction = ActionSave | ActionImageDelete | OtherAction(id: int)

  /**
   * How a menu item was handled: the session finished with a result, the selected
   * image was deleted, or the item went to the platform's default handling.
   */
  datatype ItemOutcome = Finished(result: EditorResult) | ImageDeleted | Delegated

  /**
   * The field list handed to the next-cloze computation: the snapshot of all fields
   * with the edited field replaced by the live text.
   */
  function ClozeInput(fields: seq<string>, index: int, text: string): (r: seq<string>)
    requires 0 <= index < |fields|
    ensures |r| == |fields| && r[index] == text
    ensures forall j :: 0 <= j < |fields| && j != index ==> r[j] == fields[j]
  {
    fields[index := text]
  }

  class EditSession {
    /** mCurrentText: null until startup reads the bundle. */
    var currentText: Option<string>
    /** mIndex: the index of the edited field among the note's fields. */
    var index: int
    /** mModelId: the id of the note type. */
    var modelId: int
    /** mFields: the snapshot of every field's text, null until startup reads the bundle. */
    var fields: array?<string>
    /** Whether mWebView was found. */
    var webViewFound: bool
    /** mSelectionType */
    var selection: SelectionType
    /** Whether the cloze button's view is visible (a view property, not a field of the activity). */
    var clozeButtonVisible: bool
    /** Every command sent to the web view so far, oldest first. */
    ghost var commands: seq<WebViewCommand>

    /** The session has started: the text, the field snapshot and the web view are all there. */
    ghost predicate Valid()
      reads this
    {
      currentText.Some? && fields != null && webViewFound
    }

    /** The activity as created, before onCreate: only the selection has an initial value. */
    constructor ()
      ensures selection == Regular
      ensures currentText == None && fields == null && !webViewFound
      ensures index == 0 && modelId == 0 && !clozeButtonVisible && commands == []
    {
      currentText := None;
      index := 0;
      modelId := 0;
      fields := null;
      webViewFound := false;
      selection := Regular;
      clozeButtonVisible := false;
      commands := [];
    }

    /**
     * setFieldsOnStartup: reads the bundle into the fields and reports whether all of it
     * was there. The text and the field list are stored before they are checked, the
     * index and model id only once all four entries are present, and the web view last.
     */
    method SetFieldsOnStartup(extras: Option<Extras>, editorViewFound: bool) returns (ok: bool)
      modifies this
      ensures ok <==> StartupComplete(extras, editorViewFound)
      ensures ok ==> Valid()
      ensures extras.None? ==> currentText == old(currentText) && fields == old(fields)
      ensures extras.Some? ==> currentText == extras.value.field
      ensures extras.Some? ==> (fields == null <==> extras.value.allFields.None?)
      ensures extras.Some? && fields != null ==> fresh(fields) && fields[..] == extras.value.allFields.value
      ensures EntriesPresent(extras) ==>
        index == extras.value.fieldIndex.value && modelId == extras.value.modelId.value
        && webViewFound == editorViewFound
      ensures !EntriesPresent(extras) ==>
        index == old(index) && modelId == old(modelId) && webViewFound == old(webViewFound)
      ensures selection == old(selection) && clozeButtonVisible == old(clozeButtonVisible)
      ensures commands == old(commands)
    {
      if extras.None? {
        return false;
      }
      var e := extras.value;
      currentText := e.field;
      var fieldIndex := e.fieldIndex;
      if e.allFields.Some? {
        var all := e.allFields.value;
        fields := new string[|all|](i requires 0 <= i < |all| => all[i]);
        assert fields[..] == all;
      } else {
        fields := null;
      }
      var id := e.modelId;
      if currentText.None? {
        return false;
      }
      if fieldIndex.None? {
        return false;
      }
      if fields == null {
        return false;
      }
      if id.None? {
        return false;
      }
      modelId := id.value;
      index := fieldIndex.value;
      webViewFound := editorViewFound;
      if !webViewFound {
        return false;
      }
      return true;
    }

    /** finishCancel: the result that tells the caller nothing was saved. */
    function FinishCancel(): (r: EditorResult)
      ensures r == Cancelled
    {
      Cancelled
    }

    /** finishWithSuccess: the result carries the live text and the edited field's index. */
    function FinishWithSuccess(): (r: EditorResult)
      reads this
      requires currentText.Some?
      ensures r.Saved? && r.text == currentText.value && r.fieldIndex == index
    {
      Saved(currentText.value, index)
    }

    /**
     * setupWebView: injects the appearance stylesheet, then loads the field's text.
     * The listeners it registers are the methods OnTextChanged and HandleSelectionChanged.
     */
    method SetupWebView(appearanceCss: string)
      requires Valid()
      modifies this`commands
      ensures commands == old(commands) + [InjectCss(appearanceCss), SetHtml(currentText.value)]
    {
      commands := commands + [InjectCss(appearanceCss)];
      commands := commands + [SetHtml(currentText.value)];
    }

    /**
     * onCreate: on a bundle that fails validation the session is cancelled and the web
     * view receives nothing; otherwise the session holds the supplied values unchanged
     * (the index is not range-checked) and the web view is set up with the field's text.
     * `appearanceCss` is the stylesheet of the user's card appearance settings.
     */
    method OnCreate(extras: Option<Extras>, editorViewFound: bool, appearanceCss: string)
      returns (result: Option<EditorResult>)
      modifies this
      ensures result == if StartupComplete(extras, editorViewFound) then None else Some(Cancelled)
      ensures result.Some? ==> commands == old(commands)
      ensures result.None? ==>
        && Valid()
        && currentText == extras.value.field
        && index == extras.value.fieldIndex.value
        && modelId == extras.value.modelId.value
        && fresh(fields) && fields[..] == extras.value.allFields.value
        && commands == old(commands) + [InjectCss(appearanceCss), SetHtml(extras.value.field.value)]
      ensures selection == old(selection) && clozeButtonVisible == old(clozeButtonVisible)
    {
      var ok := SetFieldsOnStartup(extras, editorViewFound);
      if !ok {
        return Some(FinishCancel());
      }
      SetupWebView(appearanceCss);
      return None;
    }

    /**
     * onCollectionLoaded, after the editor shell is loaded: shows the cloze button for a
     * cloze note type and injects the note type's stylesheet. `modelCss` is the note
     * type's css, None when it cannot be read.
     */
    method OnCollectionLoaded(modelCss: Option<string>, isCloze: bool)
      requires Valid()
      modifies this`commands, this`clozeButtonVisible
      ensures clozeButtonVisible == (old(clozeButtonVisible) || isCloze)
      ensures commands == old(commands) + [InjectCss(GetModelCss(modelCss))]
    {
      var css := GetModelCss(modelCss);
      if isCloze {
        clozeButtonVisible := true;
      }
      commands := commands + [InjectCss(css)];
    }

    /** The text-changed listener: the live text becomes the web view's text. */
    method OnTextChanged(text: string)
      modifies this`currentText
      ensures currentText == Some(text)
    {
      currentText := Some(text);
    }

    /**
     * handleSelectionChanged: stores the new selection and asks for the menu to be
     * rebuilt exactly when the kind of selection changed. Moving from one image to
     * another asks for nothing, which is safe: the menu depends only on the kind.
     */
    method HandleSelectionChanged(s: SelectionType) returns (invalidateMenu: bool)
      modifies this`selection
      ensures selection == s
      ensures invalidateMenu <==> Kind(s) != Kind(old(selection))
      ensures !invalidateMenu ==> SelectionMenuOptions(s) == SelectionMenuOptions(old(selection))
    {
      var previous := selection;
      selection := s;
      invalidateMenu := Kind(s) != Kind(previous);
    }

    /** resetSelectionType: back to a regular selection, always asking for a new menu. */
    method ResetSelectionType() returns (invalidateMenu: bool)
      modifies this`selection
      ensures selection == Regular && invalidateMenu
    {
      selection := Regular;
      invalidateMenu := true;
    }

    /**
     * deleteSelectedImage: tells the web view to delete the image, then resets the
     * selection itself, since the web view does not reliably report the change.
     */
    method DeleteSelectedImage(s: SelectionType) returns (invalidateMenu: bool)
      requires s.Image?
      modifies this`selection, this`commands
      ensures commands == old(commands) + [DeleteImage(s.guid)]
      ensures selection == Regular && invalidateMenu
    {
      commands := commands + [DeleteImage(s.guid)];
      invalidateMenu := ResetSelectionType();
    }

    /** imageOptionsItemSelected: only the delete item is handled while an image is selected. */
    method ImageOptionsItemSelected(item: MenuAction, s: SelectionType)
      returns (handled: bool, invalidateMenu: bool)
      requires s.Image?
      modifies this`selection, this`commands
      ensures handled <==> item == ActionImageDelete
      ensures handled ==>
        commands == old(commands) + [DeleteImage(s.guid)] && selection == Regular && invalidateMenu
      ensures !handled ==> commands == old(commands) && selection == old(selection) && !invalidateMenu
    {
      if item == ActionImageDelete {
        invalidateMenu := DeleteSelectedImage(s);
        return true, invalidateMenu;
      }
      return false, false;
    }

    /**
     * onSpecificOptionsItemSelected: the image items while an image is selected;
     * everything else, in every kind of selection, goes to the default handling.
     */
    method OnSpecificOptionsItemSelected(item: MenuAction, s: SelectionType)
      returns (outcome: ItemOutcome, invalidateMenu: bool)
      modifies this`selection, this`commands
      ensures s.Image? && item == ActionImageDelete ==>
        && outcome == ImageDeleted && invalidateMenu && selection == Regular
        && commands == old(commands) + [DeleteImage(s.guid)]
      ensures !(s.Image? && item == ActionImageDelete) ==>
        outcome == Delegated && !invalidateMenu && selection == old(selection) && commands == old(commands)
    {
      match s {
        case Image(_) =>
          var handled;
          handled, invalidateMenu := ImageOptionsItemSelected(item, s);
          if handled {
            return ImageDeleted, invalidateMenu;
          }
        case Regular =>
          return Delegated, false;
        case Unknown =>
      }
      return Delegated, false;
    }

    /**
     * onOptionsItemSelected: save finishes the session with the live text in every kind
     * of selection; deleting while an image is selected removes it and resets the
     * selection; any other item changes nothing and goes to the default handling.
     */
    method OnOptionsItemSelected(item: MenuAction) returns (outcome: ItemOutcome, invalidateMenu: bool)
      requires Valid()
      modifies this`selection, this`commands
      ensures item == ActionSave ==>
        && outcome == Finished(Saved(currentText.value, index))
        && !invalidateMenu && selection == old(selection) && commands == old(commands)
      ensures item == ActionImageDelete && old(selection).Image? ==>
        && outcome == ImageDeleted && invalidateMenu && selection == Regular
        && commands == old(commands) + [DeleteImage(old(selection).guid)]
      ensures item != ActionSave && !(item == ActionImageDelete && old(selection).Image?) ==>
        outcome == Delegated && !invalidateMenu && selection == old(selection) && commands == old(commands)
    {
      var s := selection;
      if item == ActionSave {
        return Finished(FinishWithSuccess()), false;
      }
      outcome, invalidateMenu := OnSpecificOptionsItemSelected(item, s);
    }

    /**
     * getNextClozeId: writes the live text into the field snapshot in place (the list
     * view of the array writes through to it) and asks `nextClozeIndex`, the
     * next-cloze computation, about the updated snapshot. Asking again gives the same
     * answer, since the snapshot then already holds the live text.
     */
    method GetNextClozeId(nextClozeIndex: seq<string> -> int) returns (id: int)
      requires Valid() && 0 <= index < fields.Length
      modifies fields
      ensures fields[..] == ClozeInput(old(fields[..]), index, currentText.value)
      ensures ClozeInput(fields[..], index, currentText.value) == fields[..]
      ensures id == nextClozeIndex(fields[..])
    {
      fields[index] := currentText.value;
      id := nextClozeIndex(fields[..]);
    }

    /** performCloze: asks the web view to insert a cloze with the next cloze id. */
    method PerformCloze(nextClozeIndex: seq<string> -> int)
      requires Valid() && 0 <= index < fields.Length
      modifies fields, this`commands
      ensures fields[..] == ClozeInput(old(fields[..]), index, currentText.value)
      ensures commands == old(commands) + [InsertCloze(nextClozeIndex(fields[..]))]
    {
      var id := GetNextClozeId(nextClozeIndex);
      commands := commands + [InsertCloze(id)];
    }
  }

  /**
   * The activity is created and its onCreate runs: a session that starts holds the
   * supplied text, index and model id exactly, and starts with a regular selection.
   */
  method StartEditor(extras: Option<Extras>, editorViewFound: bool, appearanceCss: string)
    returns (session: EditSession, result: Option<EditorResult>)
    ensures fresh(session)
    ensures result.Some? <==> !StartupComplete(extras, editorViewFound)
    ensures result.Some? ==> result.value == Cancelled && session.commands == []
    ensures result.None? ==>
      && session.Valid()
      && session.currentText == extras.value.field
      && session.index == extras.value.fieldIndex.value
      && session.modelId == extras.value.modelId.value
      && session.fields[..] == extras.value.allFields.value
      && session.selection == Regular
      && session.commands == [InjectCss(appearanceCss), SetHtml(extras.value.field.value)]
  {
    session := new EditSession();
    result := session.OnCreate(extras, editorViewFound, appearanceCss);
  }

  /**
   * A text-changed event followed by the save item: whatever the selection, the session
   * finishes with the text of that event and the edited field's index.
   */
  method EditThenSave(session: EditSession, text: string) returns (outcome: ItemOutcome)
    requires session.Valid()
    modifies session
    ensures outcome == Finished(Saved(text, old(session.index)))
    ensures session.selection == old(session.selection) && session.commands == old(session.commands)
  {
    session.OnTextChanged(text);
    var invalidateMenu;
    outcome, invalidateMenu := session.OnOptionsItemSelected(ActionSave);
  }
}
