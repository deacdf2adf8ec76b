/**
 * What is selected in the editable surface, and the options menu derived from it.
 */
module Selection {

  /**
   * The selection reported by the web view. `Image` carries the guid that identifies
   * the selected image for deletion. `Unknown` stands for any selection kind added
   * later: the switches over the selection keep a default arm for it.
   */
  datatype SelectionType = Regular | Image(guid: string) | Unknown

  /** The enum constant behind a selection, without the guid. */
  datatype SelectionKind = RegularKind | ImageKind | UnknownKind

  function Kind(s: SelectionType): SelectionKind
  {
    match s
    case Regular => RegularKind
    case Image(_) => ImageKind
    case Unknown => UnknownKind
  }

  /** Menu resources: `visual_editor` and `visual_editor_image`. */
  datatype MenuRes = VisualEditorMenu | VisualEditorImageMenu

  /** Whether a menu offers the save action; the image menu withholds it. */
  predicate CarriesSave(m: MenuRes)
  {
    m == VisualEditorMenu
  }

  /**
   * getSelectionMenuOptions: the image menu exactly while an image is selected;
   * otherwise, an unknown kind included, the regular menu, the only one that offers save.
   */
  function SelectionMenuOptions(s: SelectionType): (m: MenuRes)
    ensures m == VisualEditorImageMenu <==> s.Image?
    ensures CarriesSave(m) <==> !s.Image?
  {
    match s
    case Image(_) => VisualEditorImageMenu
    case Regular => VisualEditorMenu
    case Unknown => VisualEditorMenu
  }
}
