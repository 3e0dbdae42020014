/**
 * The editing side of a post page: an edit mode and a preview mode over a
 * markdown `<textarea>`, a toolbar and keyboard shortcuts that splice
 * markdown into it, live character and word counts, a link dialog, an image
 * dialog, and previews of image files picked for upload.
 */
module PostPage {
  import opened Text
  import opened Editing

  // ---------------------------------------------------------------------------
  // Word counting
  // ---------------------------------------------------------------------------

  /** The number of maximal runs of whitespace (`space`) or of
      non-whitespace (`!space`) characters in `s`, counted at the last
      character of each run. */
  function RunEnds(s: string, space: bool): nat
    decreases |s|
  {
    if s == [] then 0
    else
      var endsHere := IsSpace(s[0]) == space && (|s| == 1 || IsSpace(s[1]) != space);
      (if endsHere then 1 else 0) + RunEnds(s[1..], space)
  }

  /** The words of `s`: its maximal runs of non-whitespace characters. */
  function WordRuns(s: string): nat
  {
    RunEnds(s, false)
  }

  /** The length of `t.split(/\s+/)`: the greedy pattern cuts `t` once at
      every maximal run of whitespace. */
  function SplitOnSpaceLength(t: string): nat
  {
    RunEnds(t, true) + 1
  }

  /** `text.trim() ? text.trim().split(/\s+/).length : 0`: no words
      exactly when the text is blank. */
  function WordCount(text: string): (r: nat)
    ensures r == 0 <==> AllSpace(text)
  {
    var t := Trim(text);
    TrimEmpty(text);
    if t != "" then SplitOnSpaceLength(t) else 0
  }

  /** In a non-empty string the runs alternate, so the word runs outnumber
      the whitespace runs by one when both ends are non-space, are
      outnumbered by one when both ends are space, and match otherwise. */
  lemma {:induction false} RunsAlternate(s: string)
    requires s != []
    ensures RunEnds(s, false) - RunEnds(s, true)
         == (if IsSpace(s[0]) then 0 else 1) + (if IsSpace(s[|s| - 1]) then 0 else 1) - 1
    decreases |s|
  {
    if |s| > 1 {
      RunsAlternate(s[1..]);
    }
  }

  /** Whitespace in front of a string adds no word. */
  lemma {:induction false} WordRunsTrimStart(s: string)
    ensures WordRuns(TrimStart(s)) == WordRuns(s)
    decreases |s|
  {
    if s != [] && IsSpace(s[0]) {
      WordRunsTrimStart(s[1..]);
    }
  }

  /** Whitespace after a string adds no word. */
  lemma {:induction false} WordRunsSpaceAfter(s: string, c: char)
    requires IsSpace(c)
    ensures RunEnds(s + [c], false) == RunEnds(s, false)
    decreases |s|
  {
    var sc := s + [c];
    if s == [] {
      assert RunEnds(sc, false) == (if IsSpace(c) == false then 1 else 0) + RunEnds(sc[1..], false);
    } else {
      assert sc[0] == s[0];
      assert sc[1..] == s[1..] + [c];
      WordRunsSpaceAfter(s[1..], c);
      var endsHere := IsSpace(s[0]) == false && (|s| == 1 || IsSpace(s[1]) != false);
      assert RunEnds(sc, false) == (if endsHere then 1 else 0) + RunEnds(sc[1..], false);
    }
  }

  lemma {:induction false} WordRunsTrimEnd(s: string)
    ensures WordRuns(TrimEnd(s)) == WordRuns(s)
    decreases |s|
  {
    if s != [] && IsSpace(s[|s| - 1]) {
      var front := s[..|s| - 1];
      WordRunsTrimEnd(front);
      WordRunsSpaceAfter(front, s[|s| - 1]);
      assert front + [s[|s| - 1]] == s;
    }
  }

  /** A string of whitespace only has no words. */
  lemma {:induction false} AllSpaceNoWords(s: string)
    requires AllSpace(s)
    ensures WordRuns(s) == 0
    decreases |s|
  {
    if s != [] {
      AllSpaceNoWords(s[1..]);
    }
  }

  /** The displayed word count is the number of whitespace-separated words
      of the text, whatever whitespace surrounds them. */
  lemma WordCountIsWordRuns(text: string)
    ensures WordCount(text) == WordRuns(text)
  {
    var t := Trim(text);
    TrimEmpty(text);
    if t == "" {
      AllSpaceNoWords(text);
    } else {
      RunsAlternate(t);
      WordRunsTrimStart(text);
      WordRunsTrimEnd(TrimStart(text));
    }
  }

  // ---------------------------------------------------------------------------
  // Splicing and the toolbar
  // ---------------------------------------------------------------------------

  /** `insertTextAtCursor(textarea, text, cursorOffset)`: the selection is
      replaced by `text`, then the cursor is put `cursorOffset` characters
      from the end of the inserted text. */
  function InsertAt(t: Textarea, text: string, cursorOffset: int): (r: Textarea)
    requires t.WellFormed()
    ensures r.WellFormed()
    ensures r.value == t.Before() + text + t.After()
    ensures |r.value| == |t.value| - (t.selEnd - t.selStart) + |text|
    ensures -|text| <= cursorOffset <= 0 && |r.value| < 0x1_0000_0000 ==>
      r.selStart == r.selEnd == t.selStart + |text| + cursorOffset
  {
    var spliced := SetValue(t, t.value[..t.selStart] + text + t.value[t.selEnd..]);
    var cursor := t.selStart + |text| + cursorOffset;
    SetSelectionRange(spliced, cursor, cursor)
  }

  /** What a toolbar action does: splice a replacement in with a cursor
      offset, open one of the dialogs, or switch the preview. */
  datatype ToolbarEffect = Splice(text: string, cursorOffset: int) | OpenLinkModal | OpenImageModal | SwitchPreview

  /** The `switch` of `handleToolbarAction` over the selected text. An
      action it does not list falls through with an empty replacement. */
  function ToolbarEffectOf(action: string, selected: string): (r: ToolbarEffect)
    ensures r.Splice? ==> -|r.text| <= r.cursorOffset <= 0
    ensures r.Splice? && selected != "" ==> r.cursorOffset == 0
  {
    if action == "bold" then Splice("**" + OrElse(selected, "粗体文本") + "**", if selected != "" then 0 else -2)
    else if action == "italic" then Splice("*" + OrElse(selected, "斜体文本") + "*", if selected != "" then 0 else -1)
    else if action == "code" then Splice("`" + OrElse(selected, "代码") + "`", if selected != "" then 0 else -1)
    else if action == "heading1" then Splice("# " + OrElse(selected, "标题1"), 0)
    else if action == "heading2" then Splice("## " + OrElse(selected, "标题2"), 0)
    else if action == "heading3" then Splice("### " + OrElse(selected, "标题3"), 0)
    else if action == "link" then OpenLinkModal
    else if action == "image" then OpenImageModal
    else if action == "quote" then Splice("> " + OrElse(selected, "引用文本"), 0)
    else if action == "list" then Splice("- " + OrElse(selected, "列表项"), 0)
    else if action == "codeblock" then Splice("```\n" + OrElse(selected, "代码块") + "\n```", if selected != "" then 0 else -4)
    else if action == "preview" then SwitchPreview
    else Splice("", 0)
  }

  /** The markdown a text action wraps around the selection (or around its
      placeholder when nothing is selected). */
  datatype Markup = Markup(open: string, placeholder: string, close: string)

  function MarkupOf(action: string): Option<Markup>
  {
    if action == "bold" then Some(Markup("**", "粗体文本", "**"))
    else if action == "italic" then Some(Markup("*", "斜体文本", "*"))
    else if action == "code" then Some(Markup("`", "代码", "`"))
    else if action == "heading1" then Some(Markup("# ", "标题1", ""))
    else if action == "heading2" then Some(Markup("## ", "标题2", ""))
    else if action == "heading3" then Some(Markup("### ", "标题3", ""))
    else if action == "quote" then Some(Markup("> ", "引用文本", ""))
    else if action == "list" then Some(Markup("- ", "列表项", ""))
    else if action == "codeblock" then Some(Markup("```\n", "代码块", "\n```"))
    else None
  }

  /** Every text action wraps the selection, or its placeholder, in its
      markup; with nothing selected the cursor offset steps back over the
      closing markup exactly. The three dialog and preview actions touch no
      text, and any other action splices in nothing. */
  lemma ToolbarWraps(action: string, selected: string)
    ensures MarkupOf(action).Some? ==>
      var m := MarkupOf(action).value;
      ToolbarEffectOf(action, selected)
        == Splice(m.open + OrElse(selected, m.placeholder) + m.close, if selected == "" then -|m.close| else 0)
    ensures MarkupOf(action).None? ==>
      ToolbarEffectOf(action, selected)
        == (if action == "link" then OpenLinkModal
            else if action == "image" then OpenImageModal
            else if action == "preview" then SwitchPreview
            else Splice("", 0))
  {
  }

  /** Splicing `open + body + close` with the toolbar's cursor offset puts
      the cursor right after `body` when nothing was selected, after the
      whole replacement otherwise. */
  lemma WrapCursor(t: Textarea, m: Markup)
    requires t.WellFormed()
    requires |t.value| + |m.open| + |m.placeholder| + |m.close| < 0x1_0000_0000
    ensures var body := OrElse(t.Selected(), m.placeholder);
      var r := InsertAt(t, m.open + body + m.close, if t.Selected() == "" then -|m.close| else 0);
      && r.value == t.Before() + m.open + body + m.close + t.After()
      && r.selStart == r.selEnd
      && r.selStart == |t.Before()| + |m.open| + |body| + (if t.Selected() == "" then 0 else |m.close|)
  {
    var body := OrElse(t.Selected(), m.placeholder);
    assert |body| <= |t.Selected()| + |m.placeholder|;
    var r := InsertAt(t, m.open + body + m.close, if t.Selected() == "" then -|m.close| else 0);
    assert r.value == t.Before() + (m.open + body + m.close) + t.After();
  }

  /** After a text action the selection (or placeholder) sits inside its
      markup, and the cursor lands right after it: before the closing markup
      when nothing was selected, after the whole replacement otherwise. */
  lemma ToolbarCursor(t: Textarea, action: string)
    requires t.WellFormed() && MarkupOf(action).Some?
    requires |t.value| + 32 < 0x1_0000_0000
    ensures var m := MarkupOf(action).value;
      var body := OrElse(t.Selected(), m.placeholder);
      var e := ToolbarEffectOf(action, t.Selected());
      var r := InsertAt(t, e.text, e.cursorOffset);
      && r.value == t.Before() + m.open + body + m.close + t.After()
      && r.selStart == r.selEnd
      && r.selStart == |t.Before()| + |m.open| + |body| + (if t.Selected() == "" then 0 else |m.close|)
  {
    var m := MarkupOf(action).value;
    ToolbarWraps(action, t.Selected());
    assert |m.open| + |m.placeholder| + |m.close| <= 32;
    WrapCursor(t, m);
  }

  // ---------------------------------------------------------------------------
  // Upload previews and saving
  // ---------------------------------------------------------------------------

  const MaxPreviewBytes: nat := 5 * 1024 * 1024

  /** `uploadFiles`'s gate: an image type, and at most 5 MiB. */
  predicate PreviewAllowed(f: FileInfo) {
    IsImage(f) && f.size <= MaxPreviewBytes
  }

  /** The `forEach` of `uploadFiles`: files failing the gate are skipped,
      the others get a preview, in order. */
  method PreviewableFiles(files: seq<FileInfo>) returns (accepted: seq<FileInfo>)
    ensures accepted == Filter(files, PreviewAllowed)
  {
    accepted := [];
    for i := 0 to |files|
      invariant accepted == Filter(files[..i], PreviewAllowed)
    {
      var file := files[i];
      FilterSnoc(files[..i], PreviewAllowed, file);
      assert files[..i + 1] == files[..i] + [file];
      if !StartsWith(file.mime, "image/") {
        continue;
      }
      if file.size > MaxPreviewBytes {
        continue;
      }
      accepted := accepted + [file];
    }
    assert files[..|files|] == files;
  }

  /** A file gets a preview iff it was picked and passes the gate. */
  lemma PreviewGate(files: seq<FileInfo>, f: FileInfo)
    ensures f in Filter(files, PreviewAllowed) <==> f in files && IsImage(f) && f.size <= MaxPreviewBytes
  {
    FilterMembership(files, PreviewAllowed, f);
  }

  /** The post's metadata fields as typed (a missing field reads as ""). */
  datatype MetaForm = MetaForm(title: string, categories: string, tags: string, thumbnail: string, date: string)

  /** What `savePost` collects. */
  datatype PostData = PostData(title: string, content: string, categories: string, tags: string,
                               thumbnail: string, date: string)

  // ---------------------------------------------------------------------------
  // The page
  // ---------------------------------------------------------------------------

  class PostEditorPage {
    var editor: Textarea
    var isEditMode: bool
    var isPreviewMode: bool
    /** Which of the rendered post, the editor and the preview pane are displayed. */
    var contentShown: bool
    var editorShown: bool
    var previewShown: bool
    var imageModalOpen: bool
    var linkModalOpen: bool
    /** The inputs of the two dialogs. */
    var linkText: string
    var linkUrl: string
    var imageUrl: string
    var imageAlt: string
    /** The displayed counts. */
    var charCount: nat
    var wordCount: nat
    /** Whether the page has the `#uploaded-images` container, and the
        previews created in it. */
    const hasUploadArea: bool
    var previews: seq<FileInfo>

    ghost predicate Valid()
      reads this
    {
      && editor.WellFormed()
      && (isPreviewMode ==> isEditMode)
      && contentShown == !isEditMode
      && editorShown == (isEditMode && !isPreviewMode)
      && previewShown == (isEditMode && isPreviewMode)
    }

    /** Page load: reading mode, dialogs closed, counts computed once. */
    constructor (initial: Textarea, uploadArea: bool)
      requires initial.WellFormed()
      ensures Valid()
      ensures editor == initial && !isEditMode && !imageModalOpen && !linkModalOpen
      ensures linkText == linkUrl == imageUrl == imageAlt == ""
      ensures charCount == |initial.value| && wordCount == WordRuns(initial.value)
      ensures hasUploadArea == uploadArea && previews == []
    {
      editor := initial;
      isEditMode, isPreviewMode := false, false;
      contentShown, editorShown, previewShown := true, false, false;
      imageModalOpen, linkModalOpen := false, false;
      linkText, linkUrl, imageUrl, imageAlt := "", "", "", "";
      hasUploadArea := uploadArea;
      previews := [];
      new;
      UpdateWordCount();
    }

    /** Refreshes the character and word counts from the editor. */
    method UpdateWordCount()
      modifies this
      ensures charCount == |editor.value| && wordCount == WordRuns(editor.value)
      ensures editor == old(editor) && isEditMode == old(isEditMode) && isPreviewMode == old(isPreviewMode)
      ensures contentShown == old(contentShown) && editorShown == old(editorShown) && previewShown == old(previewShown)
      ensures imageModalOpen == old(imageModalOpen) && linkModalOpen == old(linkModalOpen)
      ensures linkText == old(linkText) && linkUrl == old(linkUrl)
      ensures imageUrl == old(imageUrl) && imageAlt == old(imageAlt) && previews == old(previews)
    {
      var text := editor.value;
      charCount := |text|;
      wordCount := WordCount(text);
      WordCountIsWordRuns(text);
    }

    /** The user edits the textarea; its `input` event refreshes the counts. */
    method Input(t: Textarea)
      requires Valid() && t.WellFormed()
      modifies this
      ensures Valid()
      ensures editor == t && charCount == |t.value| && wordCount == WordRuns(t.value)
      ensures isEditMode == old(isEditMode) && isPreviewMode == old(isPreviewMode)
      ensures imageModalOpen == old(imageModalOpen) && linkModalOpen == old(linkModalOpen)
      ensures linkText == old(linkText) && linkUrl == old(linkUrl)
      ensures imageUrl == old(imageUrl) && imageAlt == old(imageAlt) && previews == old(previews)
    {
      editor := t;
      UpdateWordCount();
    }

    /** Enters or leaves edit mode. Entering fills an editor holding only
        whitespace with the rendered post; leaving also leaves the preview. */
    method ToggleEditMode(postContentHtml: string)
      requires Valid()
      modifies this
      ensures Valid()
      ensures isEditMode == !old(isEditMode)
      ensures isEditMode ==> isPreviewMode == old(isPreviewMode) == false
      ensures !isEditMode ==> !isPreviewMode
      ensures isEditMode && Trim(old(editor.value)) == "" ==> editor == SetValue(old(editor), postContentHtml)
      ensures !(isEditMode && Trim(old(editor.value)) == "") ==> editor == old(editor)
      ensures imageModalOpen == old(imageModalOpen) && linkModalOpen == old(linkModalOpen)
      ensures linkText == old(linkText) && linkUrl == old(linkUrl)
      ensures imageUrl == old(imageUrl) && imageAlt == old(imageAlt)
      ensures charCount == old(charCount) && wordCount == old(wordCount) && previews == old(previews)
    {
      isEditMode := !isEditMode;
      if isEditMode {
        contentShown := false;
        editorShown := true;
        if Trim(editor.value) == "" {
          editor := SetValue(editor, postContentHtml);
        }
      } else {
        contentShown := true;
        editorShown := false;
        previewShown := false;
        isPreviewMode := false;
      }
    }

    /** Switches between the editor and the preview; outside edit mode it
        does nothing. */
    method TogglePreview()
      requires Valid()
      modifies this
      ensures Valid()
      ensures isPreviewMode == (if old(isEditMode) then !old(isPreviewMode) else old(isPreviewMode))
      ensures isEditMode == old(isEditMode) && editor == old(editor)
      ensures imageModalOpen == old(imageModalOpen) && linkModalOpen == old(linkModalOpen)
      ensures linkText == old(linkText) && linkUrl == old(linkUrl)
      ensures imageUrl == old(imageUrl) && imageAlt == old(imageAlt)
      ensures charCount == old(charCount) && wordCount == old(wordCount) && previews == old(previews)
    {
      if !isEditMode {
        return;
      }
      isPreviewMode := !isPreviewMode;
      if isPreviewMode {
        editorShown := false;
        previewShown := true;
      } else {
        editorShown := true;
        previewShown := false;
      }
    }

    /** Splices `text` over the selection, places the cursor and refreshes
        the counts. */
    method InsertTextAtCursor(text: string, cursorOffset: int)
      requires Valid()
      modifies this
      ensures Valid()
      ensures editor == InsertAt(old(editor), text, cursorOffset)
      ensures charCount == |editor.value| && wordCount == WordRuns(editor.value)
      ensures isEditMode == old(isEditMode) && isPreviewMode == old(isPreviewMode)
      ensures imageModalOpen == old(imageModalOpen) && linkModalOpen == old(linkModalOpen)
      ensures linkText == old(linkText) && linkUrl == old(linkUrl)
      ensures imageUrl == old(imageUrl) && imageAlt == old(imageAlt) && previews == old(previews)
    {
      var start := editor.selStart;
      var end := editor.selEnd;
      editor := SetValue(editor, editor.value[..start] + text + editor.value[end..]);
      var newCursorPos := start + |text| + cursorOffset;
      editor := SetSelectionRange(editor, newCursorPos, newCursorPos);
      UpdateWordCount();
    }

    /** Opens the link dialog, copying a non-empty selection into its text field. */
    method ShowLinkModal()
      requires Valid()
      modifies this
      ensures Valid()
      ensures linkModalOpen
      ensures linkText == OrElse(old(editor).Selected(), old(linkText)) && linkUrl == old(linkUrl)
      ensures editor == old(editor) && isEditMode == old(isEditMode) && isPreviewMode == old(isPreviewMode)
      ensures imageModalOpen == old(imageModalOpen)
      ensures imageUrl == old(imageUrl) && imageAlt == old(imageAlt)
      ensures charCount == old(charCount) && wordCount == old(wordCount) && previews == old(previews)
    {
      linkModalOpen := true;
      var selectedText := editor.value[editor.selStart..editor.selEnd];
      if selectedText != "" {
        linkText := selectedText;
      }
    }

    /** Closes the link dialog and clears both of its fields. */
    method CloseLinkModal()
      requires Valid()
      modifies this
      ensures Valid()
      ensures !linkModalOpen && linkText == "" && linkUrl == ""
      ensures editor == old(editor) && isEditMode == old(isEditMode) && isPreviewMode == old(isPreviewMode)
      ensures imageModalOpen == old(imageModalOpen)
      ensures imageUrl == old(imageUrl) && imageAlt == old(imageAlt)
      ensures charCount == old(charCount) && wordCount == old(wordCount) && previews == old(previews)
    {
      linkModalOpen := false;
      linkText, linkUrl := "", "";
    }

    /** Opens the image dialog; its fields keep what was typed before. */
    method ShowImageModal()
      requires Valid()
      modifies this
      ensures Valid()
      ensures imageModalOpen && imageUrl == old(imageUrl) && imageAlt == old(imageAlt)
      ensures editor == old(editor) && isEditMode == old(isEditMode) && isPreviewMode == old(isPreviewMode)
      ensures linkModalOpen == old(linkModalOpen) && linkText == old(linkText) && linkUrl == old(linkUrl)
      ensures charCount == old(charCount) && wordCount == old(wordCount) && previews == old(previews)
    {
      imageModalOpen := true;
    }

    /** Closes the image dialog; its fields keep what was typed. */
    method CloseImageModal()
      requires Valid()
      modifies this
      ensures Valid()
      ensures !imageModalOpen && imageUrl == old(imageUrl) && imageAlt == old(imageAlt)
      ensures editor == old(editor) && isEditMode == old(isEditMode) && isPreviewMode == old(isPreviewMode)
      ensures linkModalOpen == old(linkModalOpen) && linkText == old(linkText) && linkUrl == old(linkUrl)
      ensures charCount == old(charCount) && wordCount == old(wordCount) && previews == old(previews)
    {
      imageModalOpen := false;
    }

    /** The user types into the link dialog's fields. */
    method FillLinkForm(text: string, url: string)
      modifies this
      ensures linkText == text && linkUrl == url
      ensures editor == old(editor) && isEditMode == old(isEditMode) && isPreviewMode == old(isPreviewMode)
      ensures contentShown == old(contentShown) && editorShown == old(editorShown) && previewShown == old(previewShown)
      ensures imageModalOpen == old(imageModalOpen) && linkModalOpen == old(linkModalOpen)
      ensures imageUrl == old(imageUrl) && imageAlt == old(imageAlt)
      ensures charCount == old(charCount) && wordCount == old(wordCount) && previews == old(previews)
    {
      linkText, linkUrl := text, url;
    }

    /** The user types into the image dialog's fields. */
    method FillImageForm(url: string, alt: string)
      modifies this
      ensures imageUrl == url && imageAlt == alt
      ensures editor == old(editor) && isEditMode == old(isEditMode) && isPreviewMode == old(isPreviewMode)
      ensures contentShown == old(contentShown) && editorShown == old(editorShown) && previewShown == old(previewShown)
      ensures imageModalOpen == old(imageModalOpen) && linkModalOpen == old(linkModalOpen)
      ensures linkText == old(linkText) && linkUrl == old(linkUrl)
      ensures charCount == old(charCount) && wordCount == old(wordCount) && previews == old(previews)
    {
      imageUrl, imageAlt := url, alt;
    }

    /** Inserts `![alt](src)` at the cursor and closes the image dialog. */
    method InsertImageToEditor(src: string, alt: string)
      requires Valid()
      modifies this
      ensures Valid()
      ensures editor == InsertAt(old(editor), ImageMarkdown(alt, src), 0)
      ensures charCount == |editor.value| && wordCount == WordRuns(editor.value)
      ensures !imageModalOpen && linkModalOpen == old(linkModalOpen)
      ensures isEditMode == old(isEditMode) && isPreviewMode == old(isPreviewMode)
      ensures linkText == old(linkText) && linkUrl == old(linkUrl)
      ensures imageUrl == old(imageUrl) && imageAlt == old(imageAlt) && previews == old(previews)
    {
      InsertTextAtCursor(ImageMarkdown(alt, src), 0);
      CloseImageModal();
    }

    /** The image dialog's "insert": nothing without an address. */
    method InsertImageUrl()
      requires Valid()
      modifies this
      ensures Valid()
      ensures old(imageUrl) == "" ==>
        && editor == old(editor) && imageModalOpen == old(imageModalOpen)
        && charCount == old(charCount) && wordCount == old(wordCount)
      ensures old(imageUrl) != "" ==>
        && editor == InsertAt(old(editor), ImageMarkdown(old(imageAlt), old(imageUrl)), 0) && !imageModalOpen
        && charCount == |editor.value| && wordCount == WordRuns(editor.value)
      ensures isEditMode == old(isEditMode) && isPreviewMode == old(isPreviewMode)
      ensures linkModalOpen == old(linkModalOpen) && linkText == old(linkText) && linkUrl == old(linkUrl)
      ensures imageUrl == old(imageUrl) && imageAlt == old(imageAlt) && previews == old(previews)
    {
      var url := imageUrl;
      var alt := imageAlt;
      if url == "" {
        return;
      }
      InsertImageToEditor(url, alt);
    }

    /** The link dialog's "insert": nothing without an address; otherwise
        `[text](url)`, the address standing in for an empty text. */
    method InsertLink()
      requires Valid()
      modifies this
      ensures Valid()
      ensures old(linkUrl) == "" ==>
        && editor == old(editor) && linkModalOpen == old(linkModalOpen)
        && linkText == old(linkText) && linkUrl == old(linkUrl)
        && charCount == old(charCount) && wordCount == old(wordCount)
      ensures old(linkUrl) != "" ==>
        && editor == InsertAt(old(editor), LinkMarkdown(OrElse(old(linkText), old(linkUrl)), old(linkUrl)), 0)
        && !linkModalOpen && linkText == "" && linkUrl == ""
        && charCount == |editor.value| && wordCount == WordRuns(editor.value)
      ensures isEditMode == old(isEditMode) && isPreviewMode == old(isPreviewMode)
      ensures imageModalOpen == old(imageModalOpen)
      ensures imageUrl == old(imageUrl) && imageAlt == old(imageAlt) && previews == old(previews)
    {
      var text := linkText;
      var url := linkUrl;
      if url == "" {
        return;
      }
      InsertTextAtCursor(LinkMarkdown(OrElse(text, url), url), 0);
      CloseLinkModal();
    }

    /** A toolbar button: a splice, a dialog, or the preview switch. */
    method HandleToolbarAction(action: string)
      requires Valid()
      modifies this
      ensures Valid()
      ensures var e := ToolbarEffectOf(action, old(editor).Selected());
        && (e.Splice? ==>
              && editor == InsertAt(old(editor), e.text, e.cursorOffset)
              && charCount == |editor.value| && wordCount == WordRuns(editor.value)
              && isPreviewMode == old(isPreviewMode)
              && imageModalOpen == old(imageModalOpen) && linkModalOpen == old(linkModalOpen))
        && (!e.Splice? ==> editor == old(editor) && charCount == old(charCount) && wordCount == old(wordCount))
        && (e.OpenLinkModal? ==>
              && linkModalOpen && imageModalOpen == old(imageModalOpen) && isPreviewMode == old(isPreviewMode))
        && (e.OpenImageModal? ==>
              && imageModalOpen && linkModalOpen == old(linkModalOpen) && isPreviewMode == old(isPreviewMode))
        && (e.SwitchPreview? ==>
              && isPreviewMode == (if old(isEditMode) then !old(isPreviewMode) else old(isPreviewMode))
              && imageModalOpen == old(imageModalOpen) && linkModalOpen == old(linkModalOpen))
        && linkText == (if e.OpenLinkModal? then OrElse(old(editor).Selected(), old(linkText)) else old(linkText))
      ensures isEditMode == old(isEditMode) && linkUrl == old(linkUrl)
      ensures imageUrl == old(imageUrl) && imageAlt == old(imageAlt) && previews == old(previews)
    {
      var selectedText := editor.value[editor.selStart..editor.selEnd];
      match ToolbarEffectOf(action, selectedText)
      case Splice(replacement, cursorOffset) =>
        InsertTextAtCursor(replacement, cursorOffset);
      case OpenLinkModal =>
        ShowLinkModal();
      case OpenImageModal =>
        ShowImageModal();
      case SwitchPreview =>
        TogglePreview();
    }

    /** Collects the post for saving; outside edit mode there is nothing to save. */
    method SavePost(form: MetaForm) returns (data: Option<PostData>)
      ensures !isEditMode <==> data.None?
      ensures data.Some? ==> data.value == PostData(form.title, editor.value, form.categories, form.tags,
                                                    form.thumbnail, form.date)
    {
      if !isEditMode {
        return None;
      }
      data := Some(PostData(form.title, editor.value, form.categories, form.tags, form.thumbnail, form.date));
    }

    /** A key press. Outside edit mode nothing happens. In edit mode Ctrl+S
        saves, Ctrl+B and Ctrl+I make bold and italic, and Escape closes the
        image dialog if it is open, else the link dialog if it is open, and
        otherwise leaves edit mode. */
    method HandleKeydown(key: string, ctrl: bool, form: MetaForm, postContentHtml: string)
      returns (saved: Option<PostData>)
      requires Valid()
      modifies this
      ensures Valid()
      ensures saved.Some? <==> old(isEditMode) && ctrl && key == "s"
      ensures saved.Some? ==>
        saved.value == PostData(form.title, old(editor).value, form.categories, form.tags, form.thumbnail, form.date)
      ensures !(old(isEditMode) && ((ctrl && (key == "b" || key == "i")) || key == "Escape")) ==>
        && editor == old(editor) && isEditMode == old(isEditMode) && isPreviewMode == old(isPreviewMode)
        && imageModalOpen == old(imageModalOpen) && linkModalOpen == old(linkModalOpen)
        && linkText == old(linkText) && linkUrl == old(linkUrl)
        && charCount == old(charCount) && wordCount == old(wordCount)
      ensures old(isEditMode) && ctrl && (key == "b" || key == "i") ==>
        && var e := ToolbarEffectOf(if key == "b" then "bold" else "italic", old(editor).Selected());
        && editor == InsertAt(old(editor), e.text, e.cursorOffset)
        && charCount == |editor.value| && wordCount == WordRuns(editor.value)
        && isEditMode && isPreviewMode == old(isPreviewMode)
        && imageModalOpen == old(imageModalOpen) && linkModalOpen == old(linkModalOpen)
        && linkText == old(linkText) && linkUrl == old(linkUrl)
      ensures old(isEditMode) && key == "Escape" ==>
        && editor == old(editor) && charCount == old(charCount) && wordCount == old(wordCount)
        && if old(imageModalOpen) then
             && !imageModalOpen && linkModalOpen == old(linkModalOpen) && isEditMode
             && isPreviewMode == old(isPreviewMode) && linkText == old(linkText) && linkUrl == old(linkUrl)
           else if old(linkModalOpen) then
             && !linkModalOpen && !imageModalOpen && isEditMode && isPreviewMode == old(isPreviewMode)
             && linkText == "" && linkUrl == ""
           else
             && !isEditMode && !isPreviewMode && !imageModalOpen && !linkModalOpen
             && linkText == old(linkText) && linkUrl == old(linkUrl)
      ensures imageUrl == old(imageUrl) && imageAlt == old(imageAlt) && previews == old(previews)
    {
      saved := None;
      if !isEditMode {
        return;
      }
      if ctrl && key == "s" {
        saved := SavePost(form);
      }
      if ctrl && key == "b" {
        HandleToolbarAction("bold");
      }
      if ctrl && key == "i" {
        HandleToolbarAction("italic");
      }
      if key == "Escape" {
        if imageModalOpen {
          CloseImageModal();
        } else if linkModalOpen {
          CloseLinkModal();
        } else {
          ToggleEditMode(postContentHtml);
        }
      }
    }

    /** Picked or dropped files: those passing the gate get a preview, in
        order; without the preview container nothing happens. */
    method UploadFiles(files: seq<FileInfo>)
      requires Valid()
      modifies this
      ensures Valid()
      ensures previews == (if hasUploadArea then old(previews) + Filter(files, PreviewAllowed) else old(previews))
      ensures editor == old(editor) && isEditMode == old(isEditMode) && isPreviewMode == old(isPreviewMode)
      ensures imageModalOpen == old(imageModalOpen) && linkModalOpen == old(linkModalOpen)
      ensures linkText == old(linkText) && linkUrl == old(linkUrl)
      ensures imageUrl == old(imageUrl) && imageAlt == old(imageAlt)
      ensures charCount == old(charCount) && wordCount == old(wordCount)
    {
      if !hasUploadArea {
        return;
      }
      var accepted := PreviewableFiles(files);
      previews := previews + accepted;
    }
  }
}
