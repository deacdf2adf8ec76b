# Visual editor session controller

A Dafny model of the session controller of AnkiDroid's visual editor
(`VisualEditorActivity`). The visual editor edits one field of a note in a web view.
It keeps the state of the session: the live text of the field, the field's index,
the note type id, a snapshot of all fields, and what is selected in the web view.
It derives the options menu from the selection and dispatches menu actions. It
computes the field list for the next cloze id, rescopes the note type's stylesheet
to the editable area, and hands the edited text back to the caller as a result.

Modules:

- `Wrappers` (wrappers.dfy): `Option`, for Java references that may be null and for lookups that may fail.
- `ModelCss` (model_css.dfy): Java's `String.replace` as a left-to-right scan, and `getModelCss` with its fallback stylesheet.
- `Selection` (selection.dfy): the selection type, its kind (the enum constant), and the menu derived from it.
- `VisualEditor` (editor.dfy): the `EditSession` class. Its fields are the activity's fields `mCurrentText`, `mIndex`, `mModelId`, `mFields` and `mSelectionType`, plus whether `mWebView` was found. One extra field, `clozeButtonVisible`, is the visibility of the cloze button's view (line 210), not a field of the activity. The methods are startup, the two web view listeners, menu dispatch, the cloze step and the two ways to finish. Commands sent to the web view are recorded in a ghost log, `commands`.

Three points of the code shape the model:

- `handleSelectionChanged` compares enum constants (line 145), so moving from one image to another requests no menu rebuild. The model compares selection kinds, and `HandleSelectionChanged` proves that the menu cannot change when no rebuild is requested.
- `setFieldsOnStartup` stores the field text and the field array before checking them (lines 159-162), so a failed startup leaves them set. `SetFieldsOnStartup` states those partial assignments.
- `action_save` finishes with success whatever the selection (lines 315-318), even though the image menu does not offer it.

## Model

| member | source | states |
|---|---|---|
| `ModelCss.GetModelCss` | AnkiDroid/src/main/java/com/ichi2/anki/multimediacard/activity/VisualEditorActivity.java:217-234 | If the css cannot be read, the result is the fixed default stylesheet. Otherwise the result contains no `.card`, and it equals the input exactly when the input contains no `.card`. |
| `ModelCss.FreeUnchanged` | AnkiDroid/src/main/java/com/ichi2/anki/multimediacard/activity/VisualEditorActivity.java:220 | A string with no occurrence of the target comes back from the left-to-right replacement unchanged. |
| `ModelCss.ReplaceGrows` | AnkiDroid/src/main/java/com/ichi2/anki/multimediacard/activity/VisualEditorActivity.java:220 | With a replacement longer than the target, the replacement never shortens the text. It lengthens the text whenever the target occurs, so an input that contains the target never comes back unchanged. |
| `ModelCss.RescopeLeavesNoCard` | AnkiDroid/src/main/java/com/ichi2/anki/multimediacard/activity/VisualEditorActivity.java:220 | After `.card` is replaced by `.note-editable `, no `.card` remains: none survives the scan and none forms where replaced and kept text meet. |
| `Selection.SelectionMenuOptions` | AnkiDroid/src/main/java/com/ichi2/anki/multimediacard/activity/VisualEditorActivity.java:285-309 | An image selection gives the image menu, and only an image selection does. Regular and unknown kinds give the regular menu. Only the regular menu offers save. |
| `VisualEditor.ClozeInput` | AnkiDroid/src/main/java/com/ichi2/anki/multimediacard/activity/VisualEditorActivity.java:117-121 | The field list for the next cloze id has as many entries as the snapshot. The edited field's entry is the live text, and every other entry is the snapshot's. |
| `VisualEditor.EditSession.constructor` | AnkiDroid/src/main/java/com/ichi2/anki/multimediacard/activity/VisualEditorActivity.java:54-60 | A new activity has a regular selection, no text, no field list, no web view and no commands sent. |
| `VisualEditor.EditSession.SetFieldsOnStartup` | AnkiDroid/src/main/java/com/ichi2/anki/multimediacard/activity/VisualEditorActivity.java:151-192 | Startup succeeds if and only if the bundle, its four entries and the web view are all present. The text and a fresh copy of the field list are stored even when a later check fails. Index and model id are stored only when all four entries are present, and then unchanged and without a range check. Success establishes `Valid()`. Selection and commands are untouched. |
| `VisualEditor.EditSession.SetupWebView` | AnkiDroid/src/main/java/com/ichi2/anki/multimediacard/activity/VisualEditorActivity.java:124-138 | The web view is sent the appearance stylesheet, then the field's text, in that order. |
| `VisualEditor.EditSession.OnCreate` | AnkiDroid/src/main/java/com/ichi2/anki/multimediacard/activity/VisualEditorActivity.java:63-83 | When validation fails, the result is the cancel from `FinishCancel`, which carries no text and no index, and the web view receives no command. Otherwise the session holds exactly the supplied text, index, model id and fields, and the web view is set up with that text. |
| `VisualEditor.EditSession.OnCollectionLoaded` | AnkiDroid/src/main/java/com/ichi2/anki/multimediacard/activity/VisualEditorActivity.java:200-214 | The cloze button is shown for a cloze note type. The model stylesheet from `GetModelCss` is injected. |
| `VisualEditor.EditSession.OnTextChanged` | AnkiDroid/src/main/java/com/ichi2/anki/multimediacard/activity/VisualEditorActivity.java:131 | The live text becomes the reported text. Nothing else changes. |
| `VisualEditor.EditSession.HandleSelectionChanged` | AnkiDroid/src/main/java/com/ichi2/anki/multimediacard/activity/VisualEditorActivity.java:141-148 | The selection becomes the reported one. A menu rebuild is requested if and only if the selection kind changed. Without a rebuild the derived menu is the same. The text is untouched. |
| `VisualEditor.EditSession.ResetSelectionType` | AnkiDroid/src/main/java/com/ichi2/anki/multimediacard/activity/VisualEditorActivity.java:357-361 | The selection becomes regular and a menu rebuild is always requested. |
| `VisualEditor.EditSession.DeleteSelectedImage` | AnkiDroid/src/main/java/com/ichi2/anki/multimediacard/activity/VisualEditorActivity.java:351-354 | The web view is told to delete the image with the selection's guid. The selection is then regular and a rebuild is requested, with no later event needed. |
| `VisualEditor.EditSession.ImageOptionsItemSelected` | AnkiDroid/src/main/java/com/ichi2/anki/multimediacard/activity/VisualEditorActivity.java:342-348 | The item is handled if and only if it is the delete item. Handling deletes the image. Any other item changes nothing. |
| `VisualEditor.EditSession.OnSpecificOptionsItemSelected` | AnkiDroid/src/main/java/com/ichi2/anki/multimediacard/activity/VisualEditorActivity.java:324-339 | The delete item on an image selection deletes the image. Every other combination goes to the default handling and changes nothing. |
| `VisualEditor.EditSession.OnOptionsItemSelected` | AnkiDroid/src/main/java/com/ichi2/anki/multimediacard/activity/VisualEditorActivity.java:312-321 | Save finishes with `FinishWithSuccess`'s result, the live text and the index, in every selection state, and changes nothing. Delete on an image selection deletes the image and resets the selection. Any other item changes nothing and is delegated. |
| `VisualEditor.EditSession.GetNextClozeId` | AnkiDroid/src/main/java/com/ichi2/anki/multimediacard/activity/VisualEditorActivity.java:117-121 | The snapshot array is overwritten in place with the cloze input list. The id is the next-cloze computation applied to that list. A second call would see the same list. |
| `VisualEditor.EditSession.PerformCloze` | AnkiDroid/src/main/java/com/ichi2/anki/multimediacard/activity/VisualEditorActivity.java:112-114 | The web view is told to insert a cloze with the id computed from the updated snapshot. |
| `VisualEditor.EditThenSave` | AnkiDroid/src/main/java/com/ichi2/anki/multimediacard/activity/VisualEditorActivity.java:364-372 | A text-changed event (line 131) followed by the save item finishes the session with exactly the text of that event and the edited field's index, whatever the selection. Selection and commands are unchanged. |
| `VisualEditor.StartEditor` | AnkiDroid/src/main/java/com/ichi2/anki/multimediacard/activity/VisualEditorActivity.java:60-83 | A freshly created activity whose startup succeeds holds the supplied values exactly and starts with a regular selection. One whose startup fails is cancelled with no command sent. |

## Left out

- Asset loading (`initWebView`, `getInputStream`, `readFile`) and the media base URL are I/O. The web view's `init` command with the editor shell is not in the command log.
- The formatting buttons (`setupEditorScrollbarButtons`) are UI wiring. Only the cloze button's action (`PerformCloze`) is modelled.
- The appearance stylesheet from `CardAppearance` is a parameter of `OnCreate`. The default font size from `calculateDynamicFontSize` is not modelled.
- The collection and note type lookup in `onCollectionLoaded` is left out. The note type's css (or its failure) and `Models.isCloze` are parameters.
- `Note.ClozeUtils.getNextClozeIndex` is not part of this model. It is a function parameter, `nextClozeIndex`, and the model does not describe its algorithm.
- What the web view does with the commands it receives is not modelled.
- Toasts and logging are left out, including the warning logged for an unknown selection kind.
- `invalidateOptionsMenu` is a returned flag. Menu inflation and the contents of the menu resources are left out. That only the regular menu offers save is taken from the comment at line 289.
- `setResult` and `finishActivityWithFade` are left out. The result is returned, and the model does not stop events after it.
- The platform's default menu handling (`super.onOptionsItemSelected`) is the `Delegated` outcome.
- The startup bundle is typed: each entry is either present with the right type or missing. The casts at lines 159-163 throw `ClassCastException` on an entry of the wrong type, and the activity then crashes instead of cancelling. The typed `Extras` cannot express that case.
- Java's `Integer` and `long` widths are not modelled. The index and model id are only stored and compared, never computed with.
- The web view delivers events asynchronously. Here they are sequential method calls.
- VisualEditor.EditSession.GetNextClozeId: an index outside the field list makes the source throw `ArrayIndexOutOfBoundsException`. The model requires the index to be in range instead of modelling the exception.
- VisualEditor.EditSession.PerformCloze: same in-range requirement on the index, for the same reason.
