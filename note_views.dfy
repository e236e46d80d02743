/**
  The block rendered for each note, reduced to what the application reads
  or changes: the hidden id marker, the title, the paragraph with its
  `contenteditable` attribute and text, the inline `display` of the pencil
  (edit) and check (confirm) icons, the separator before every note but the
  first, and the "Updated:" label.

  A block is Viewing when its paragraph is not editable, the pencil shows
  and the check is hidden; Editing when the paragraph is editable, the
  pencil is hidden and the check shows.
*/
module NoteViews {
  import opened Wrappers
  import opened DateFormat
  import opened Notes

  const DisplayNone := "none"
  const DisplayBlock := "block"

  /** The paragraph: `contentEditable` is what getAttribute returns (None
      for a missing attribute), `text` its current inner HTML. */
  datatype Paragraph = Paragraph(contentEditable: Option<string>, text: string)

  /** `pencilDisplay` and `checkDisplay` are the icons' inline style.display
      ("" when the template sets none). */
  datatype NoteView = NoteView(
    separator: bool,
    marker: int,
    title: string,
    body: Paragraph,
    pencilDisplay: string,
    checkDisplay: string,
    updatedLabel: string)

  /** JavaScript truthiness of an attribute value: null and "" are false. */
  predicate Truthy(attr: Option<string>) {
    attr.Some? && attr.value != ""
  }

  /** The attribute values the handlers themselves produce or expect:
      missing, empty, "true" or "false". */
  predicate RestingAttribute(attr: Option<string>) {
    !Truthy(attr) || attr == Some("false") || attr == Some("true")
  }

  predicate IsViewing(v: NoteView) {
    v.body.contentEditable == Some("false") && v.pencilDisplay != DisplayNone && v.checkDisplay == DisplayNone
  }

  predicate IsEditing(v: NoteView) {
    v.body.contentEditable == Some("true") && v.pencilDisplay == DisplayNone && v.checkDisplay == DisplayBlock
  }

  /** The two blocks show the same note with the same text; only the edit
      state (attribute and icons) may differ. */
  predicate SameBlock(a: NoteView, b: NoteView) {
    a.separator == b.separator && a.marker == b.marker && a.title == b.title
      && a.body.text == b.body.text && a.updatedLabel == b.updatedLabel
  }

  /** The block shows note `n` at its position in the list. */
  predicate Displays(v: NoteView, n: Note, calendar: int -> DateTime) {
    v.marker == n.id && v.title == n.title && v.updatedLabel == FormatDate(calendar(n.updated))
  }

  /** The rendered blocks show the notes one for one, in order. */
  predicate Shows(vs: seq<NoteView>, ns: seq<Note>, calendar: int -> DateTime) {
    |vs| == |ns|
      && (forall k :: 0 <= k < |vs| ==> Displays(vs[k], ns[k], calendar))
      && (forall k :: 0 <= k < |vs| ==> (vs[k].separator <==> k > 0))
  }

  /** The template for the note at position `idx`; `calendar` stands for the
      host's `new Date(ms)` decomposition. */
  function RenderNote(n: Note, idx: nat, calendar: int -> DateTime): (v: NoteView)
    ensures IsViewing(v) && Displays(v, n, calendar)
    ensures v.body.text == n.text
    ensures v.separator <==> idx > 0
    ensures ParseDate(v.updatedLabel) == Some(calendar(n.updated))
  {
    ParseFormatDate(calendar(n.updated));
    NoteView(idx > 0, n.id, n.title, Paragraph(Some("false"), n.text), "", DisplayNone,
             FormatDate(calendar(n.updated)))
  }

  /** The whole list rendered: every note shown, in order, at rest. */
  function Rendered(ns: seq<Note>, calendar: int -> DateTime): (vs: seq<NoteView>)
    ensures Shows(vs, ns, calendar)
    ensures forall k :: 0 <= k < |vs| ==> IsViewing(vs[k]) && vs[k].body.text == ns[k].text
  {
    seq(|ns|, k requires 0 <= k < |ns| => RenderNote(ns[k], k, calendar))
  }

  /** The pencil's click handler on its block: a paragraph whose attribute
      is missing, empty or "false" becomes editable, the pencil is hidden and
      the check shown. */
  function StartEdit(v: NoteView): (r: NoteView)
    ensures SameBlock(r, v)
    ensures r.pencilDisplay == DisplayNone && r.checkDisplay == DisplayBlock
    ensures !Truthy(v.body.contentEditable) || v.body.contentEditable == Some("false") ==>
      r.body.contentEditable == Some("true")
    ensures Truthy(v.body.contentEditable) && v.body.contentEditable != Some("false") ==>
      r.body.contentEditable == v.body.contentEditable
    ensures RestingAttribute(v.body.contentEditable) ==> IsEditing(r)
  {
    var attr := v.body.contentEditable;
    var attr' := if !Truthy(attr) || attr == Some("false") then Some("true") else attr;
    v.(body := v.body.(contentEditable := attr'), pencilDisplay := DisplayNone, checkDisplay := DisplayBlock)
  }

  /** The check's click handler on its block, before the edit is applied: a
      paragraph with any non-empty attribute becomes not editable, the check
      is hidden and the pencil shown. */
  function FinishEdit(v: NoteView): (r: NoteView)
    ensures SameBlock(r, v)
    ensures r.pencilDisplay == DisplayBlock && r.checkDisplay == DisplayNone
    ensures Truthy(v.body.contentEditable) ==> IsViewing(r)
    ensures !Truthy(v.body.contentEditable) ==> r.body.contentEditable == v.body.contentEditable
  {
    var attr := v.body.contentEditable;
    var attr' := if Truthy(attr) then Some("false") else attr;
    v.(body := v.body.(contentEditable := attr'), checkDisplay := DisplayNone, pencilDisplay := DisplayBlock)
  }

  /** Pencil then check brings a block at rest back to rest, showing the
      same note. */
  lemma EditCycle(v: NoteView)
    requires IsViewing(v)
    ensures IsEditing(StartEdit(v))
    ensures IsViewing(FinishEdit(StartEdit(v))) && SameBlock(FinishEdit(StartEdit(v)), v)
  {
  }

  /** Clicking the pencil of a block already in edit mode changes nothing. */
  lemma StartEditIdempotent(v: NoteView)
    ensures StartEdit(StartEdit(v)) == StartEdit(v)
  {
  }
}
