# Blog page scripts: archive facets, post editing, new-post editor

This project models the string and state logic of three page scripts of a
small static blog:

- **The archive page** (`js/archive.js`). Each post card carries
  comma-separated `category` and `tag` attributes. Loading the page counts
  every non-blank trimmed label into two maps, which keep keys in insertion
  order. It then fills a category menu and a tag menu, sorted by label,
  with each label's count. Choosing an entry shows only the cards whose
  attribute lists that exact label; "show all" shows every card again. A
  single lazily created "no matching posts" notice follows the visible
  count. A resize re-lays out only the cards that are displayed.
  - Module `Archive`, class `Archive.ArchivePage`.
  - The fallback thumbnail arithmetic is here too.
- **The post page's editor** (`js/post.js`). It has a reading mode, an edit
  mode and a preview mode inside edit mode.
  - A toolbar and Ctrl+B/Ctrl+I wrap the selection of a markdown textarea
    in markup and place the cursor.
  - Ctrl+S collects the post. Escape closes the image dialog, else the
    link dialog, else leaves edit mode.
  - The link and image dialogs insert snippets.
  - Character and word counts follow every change.
  - Picked files pass a type and size gate before they get a preview.
  - Module `PostPage`, class `PostPage.PostEditorPage`.
- **The new-post editor** (`js/editor.js`). Its live preview trims the
  text, renders it and rewrites image sources and tags.
  - Insertions are guarded so they sit on lines of their own.
  - Uploads first insert an `uploading-<time>` placeholder, which the
    server's answer then replaces with an image snippet, or with nothing
    on failure.
  - File picking and dropping upload every image in order; a paste uploads
    the first image only.
  - Also covered: the default date, the sanitised image description, and
    the tag list as submitted.
  - Module `NewPost`, class `NewPost.NewPostEditor`.

Two support modules are shared by all three:

- `Text` models the JavaScript string operations the scripts use:
  - `trim` over the ECMAScript whitespace set;
  - `split` on one character, and comma lists;
  - `indexOf`;
  - `String.prototype.replace` with a string pattern, including its `$`
    substitution patterns;
  - a global literal regex replace;
  - decimal formatting and `padStart`;
  - the default `Array.prototype.sort` order, which compares UTF-16 code
    units.
- `Editing` models the textarea as a value with a selection. It follows
  the HTML standard's rules for assigning `value`, `selectionStart` and
  `selectionEnd` and for calling `setSelectionRange`, including the
  conversion of offsets to `unsigned long` and the clamping. It also holds
  the markdown link and image snippets together with their parser.

Stateful code is modelled as classes whose methods update fields. The
loops of the source are `while`/`for` loops with invariants:

- the counting `forEach`;
- the per-card display loops;
- the upload gate;
- the file and paste loops.

Each method is proved against a specification function, and the
properties are proved as lemmas about those functions.

Inputs stand in for everything outside the scripts:

- the viewport width;
- the clock reading behind the placeholder and the date parts;
- the upload endpoint's answer;
- the markdown renderer (`render`, with `None` for a throw);
- the dialog inputs and key presses;
- the presence of the optional `#archive-list` and `#uploaded-images`
  containers.

## Model

| member | source | states |
|---|---|---|
| Text.TrimStartSpec | js/post.js:294 | Trimming the start removes exactly a leading run of whitespace; what remains is a suffix that does not start with whitespace |
| Text.TrimEndSpec | js/post.js:294 | Trimming the end removes exactly a trailing run of whitespace; what remains is a prefix that does not end with whitespace |
| Text.Trim | js/post.js:294 | The trimmed text is no longer than the original and neither starts nor ends with whitespace |
| Text.TrimSlice | js/post.js:294 | The trimmed text is one contiguous slice of the original |
| Text.TrimEmpty | js/editor.js:29-30 | A text trims to the empty string iff it is all whitespace |
| Text.TrimChars | js/editor.js:237 | Trimming introduces no character that was not in the original |
| Text.TrimmedFixpoint | js/editor.js:469 | A text without whitespace at either end is left alone by trim |
| Text.TrimIdempotent | js/editor.js:29 | Trimming twice is trimming once |
| Text.Split | js/archive.js:149 | Splitting gives at least one piece, and no piece contains the separator |
| Text.JoinSplit | js/archive.js:149 | Joining the pieces with the separator gives back the original, so splitting loses nothing |
| Text.SplitNoSep | js/archive.js:149 | A text without the separator splits into itself alone |
| Text.SplitAtFirst | js/archive.js:149 | Splitting cuts at the first separator and carries on with the rest |
| Text.SplitJoin | js/editor.js:469 | Separator-free pieces joined with the separator split back into the same pieces |
| Text.TrimAll | js/archive.js:225 | Mapping trim over the pieces keeps their number and trims each one |
| Text.CommaList | js/archive.js:149-151 | No label of a comma-separated field is empty |
| Text.CommaListMembership | js/archive.js:148-151 | A string is a label of a field iff the field is non-empty, the string is non-empty and some comma-separated piece trims to it; every label is trimmed and comma-free |
| Text.CommaListRejoin | js/editor.js:469 | Labels joined with commas parse back to the same labels in the same order |
| Text.RejoinClean | js/editor.js:469 | Non-empty, trimmed, comma-free labels joined with commas parse back to exactly themselves |
| Text.TrimAllTrimmed | js/editor.js:469 | Trimming pieces that are already trimmed changes nothing |
| Text.IndexOf | js/editor.js:363 | The result is the first index where the pattern occurs; none is reported only when it occurs nowhere |
| Text.IndexOfAfter | js/editor.js:363 | When the pattern occurs nowhere before the end of `a`, it is first found right after `a` |
| Text.IndexOfPlaced | js/editor.js:363 | A pattern whose first character does not recur, absent from `a`, is first found right after `a` in `a + p + c` |
| Text.Substitute | js/editor.js:363 | A replacement without `$` is inserted literally |
| Text.ReplaceFirst | js/editor.js:363 | Only the first occurrence is replaced; the text before it and after it is kept; no occurrence, no change |
| Text.ReplaceFirstPlaced | js/editor.js:363 | When the pattern is first found right after `a`, replacing it keeps `a` and `c` around the substituted text |
| Text.ReplaceAllFirst | js/editor.js:40 | A global literal replace replaces the first occurrence, then carries on after it |
| Text.ReplaceAllAbsent | js/editor.js:40-43 | A global replace of a pattern that occurs nowhere changes nothing |
| Text.ReplaceAllPrefix | js/editor.js:40-43 | The result of a global replace begins with a piece of `q` only where the text did, when the replacement cannot complete `q` |
| Text.ReplaceAllLeavesOut | js/editor.js:40-43 | A global replace leaves no occurrence of the pattern, and creates no occurrence of another string that cannot overlap the replacement |
| Text.ReplaceAllMarks | js/editor.js:43 | When the replacement begins with the pattern, every occurrence of the pattern in the result starts a copy of the replacement |
| Text.Decimal | js/editor.js:7-9 | A number's decimal form is all digits without a leading zero, and is one character long iff the number is below ten |
| Text.DecimalRoundTrip | js/editor.js:7-9 | Reading a number's decimal form back gives the number |
| Text.PadStart2 | js/editor.js:8-9 | Padding to two keeps the text as a suffix and adds only leading zeros up to two characters |
| Text.LessEqTotal | js/archive.js:172 | Any two labels are comparable in the sort order |
| Text.LessEqAntisymmetric | js/archive.js:172 | Labels ordered both ways are equal |
| Text.LessEqTransitive | js/archive.js:172 | The sort order is transitive |
| Text.LessEqReflexive | js/archive.js:172 | Every label is ordered before or equal to itself |
| Text.LessEqIsCodeUnitOrder | js/archive.js:172 | Two labels are in sort order iff their UTF-16 code-unit sequences are in lexicographic order, a proper prefix first |
| Text.SortedUnique | js/archive.js:172 | Two sorted arrangements of the same labels are equal, so the sorted menu order is determined |
| Text.InsertSorted | js/archive.js:172 | Inserting adds exactly the new label and drops none |
| Text.InsertSortedSorted | js/archive.js:172 | Inserting into a sorted list keeps it sorted |
| Text.SortStrings | js/archive.js:172 | Sorting gives a sorted permutation of its input |
| Text.Filter | js/archive.js:196 | Every element kept passes the test, and filtering never lengthens a list |
| Text.FilterMembership | js/archive.js:196 | An element survives filtering iff it was present and passes the test |
| Text.FilterSnoc | js/post.js:352-362 | Filtering one more element appends it exactly when it passes the test |
| Text.FilterAll | js/archive.js:196-197 | When every element passes, filtering changes nothing |
| Text.FilterNone | js/post.js:352-362 | When no element passes, filtering leaves nothing |
| Editing.SetValue | js/post.js:278 | Assigning a different value moves the cursor to its end; assigning the same value changes nothing |
| Editing.SelectionPoint | js/post.js:281 | An offset is clamped to the value's length; an in-range offset is kept as is |
| Editing.SetSelectionRange | js/post.js:280-281 | Setting an in-range selection selects exactly it; the value is never touched |
| Editing.SetSelectionEnd | js/editor.js:396 | Assigning the selection end sets it, pulling the start back when it lay past it |
| Editing.SetSelectionStart | js/editor.js:396 | Assigning the selection start sets it, pushing the end forward when it lay before it |
| Editing.ImageMarkdown | js/post.js:498 | An image snippet starts with `![`, ends with `)` and is five characters longer than its parts |
| Editing.LinkMarkdown | js/post.js:530 | A link snippet starts with `[`, ends with `)` and is four characters longer than its parts |
| Editing.BracketedRoundTrip | js/post.js:498 | A snippet whose caption has no `]` reads back as its caption and target |
| Editing.ImageMarkdownRoundTrip | js/post.js:498 | An image snippet reads back as its alt text and source |
| Editing.LinkMarkdownRoundTrip | js/post.js:530 | A link snippet reads back as its text and address |
| Archive.FallbackImage | js/archive.js:74 | The fallback image index is always in bounds, and each of the first nine cards gets its own image |
| Archive.RetryImage | js/archive.js:93 | The retry index is in bounds and names a different image with a different address |
| Archive.FallbackNeverGivesUp | js/archive.js:96-98 | As written, the error handler compares the resolved `src` with a bare path, so it always reloads the next image and never shows the placeholder |
| Archive.FallbackError | js/archive.js:96-113 | With the intended comparison, the handler shows the placeholder exactly when the next image is already the one that failed |
| Archive.FallbackGivesUpAfterRetry | js/archive.js:96-113 | With the intended comparison, a failed fallback image is followed by the next one, and a second failure shows the placeholder |
| Archive.TallyStep | js/archive.js:152 | Counting one more occurrence of a label raises its count by one, from zero if it was absent, and leaves the other counts alone |
| Archive.Tally | js/archive.js:147-155 | The tally's keys are exactly the labels, each counted at least once |
| Archive.Bump | js/archive.js:152 | One map update counts the label once more; a new label is appended to the keys, whose order otherwise stays as it was |
| Archive.KeepStep | js/archive.js:150-151 | A piece that trims to a non-empty label adds that label to the counted ones; a blank piece adds nothing |
| Archive.CountPieces | js/archive.js:149-154 | The loop over the split pieces counts exactly the non-blank trimmed pieces, in order, and keeps the earlier keys first |
| Archive.CountLabels | js/archive.js:148-155 | Counting one attribute adds exactly its comma-list labels to the counts; an empty attribute adds nothing |
| Archive.BuildIndex | js/archive.js:144-164 | The two maps count every category label and every tag label of all cards; each key list holds each key once |
| Archive.CountingRule | js/archive.js:147-164 | A label is a key iff some card lists it, and its count is the number of times it is listed over all cards |
| Archive.ListedSomewhere | js/archive.js:147-164 | A label occurs in the collected labels iff some card's attribute lists it |
| Archive.ListedAt | js/archive.js:147-164 | A label listed by a given card is among the collected labels |
| Archive.OccurrencesAreMultiplicity | js/archive.js:147-164 | A label's occurrence count is its multiplicity among the collected labels, so a label repeated within one card counts twice |
| Archive.SameCardsSameLabels | js/archive.js:230-233 | Changing cards' display never changes the labels they list |
| Archive.LabelsNonblank | js/archive.js:151 | No collected label is empty |
| Archive.KeysUnfiltered | js/archive.js:196-197 | Dropping falsy keys before filling a menu removes nothing |
| Archive.Labels | js/archive.js:179 | A menu's labels are its entries' names, in menu order |
| Archive.FillMenu | js/archive.js:167-194 | The filled menu has one entry per label, sorted by label, with each entry's count read from the map |
| Archive.MenuDeterministic | js/archive.js:171-172 | Two menus filled from the same labels and counts are equal, so refilling reproduces the menu |
| Archive.MenuListsKeys | js/archive.js:174-180 | A menu filled from the keys lists exactly the map's keys, and each entry shows its label's count |
| Archive.FilterVisibility | js/archive.js:222-234 | After a filter a card is visible iff its attribute lists the value exactly; visible cards take the viewport's layout; the visible count is the number of matching cards |
| Archive.FilterCards | js/archive.js:220-234 | Filtering keeps every card's labels and shows exactly the cards that match |
| Archive.FilterIdempotent | js/archive.js:220-233 | Filtering twice by the same value is filtering once, and an earlier resize makes no difference to a filter |
| Archive.ResizeStable | js/archive.js:301-308 | Resizing at the same width changes nothing after a filter, after show-all or after another resize |
| Archive.ResizeKeepsVisibility | js/archive.js:301-308 | A resize never shows or hides a card |
| Archive.ShowAllCount | js/archive.js:245-251 | After show-all every card is visible |
| Archive.MatchesLabel | js/archive.js:224-228 | A filter of any other kind hides every card; for a category or tag it matches exactly the cards whose attribute lists the value |
| Archive.Matches | js/archive.js:224-228 | Only a value that is its own trim and holds no comma can match a card |
| Archive.MenuChoiceShowsPosts | js/archive.js:184-191 | Filtering by a counted label shows between one card and the label's count of cards |
| Archive.MenuEntryShowsPosts | js/archive.js:184-191 | Choosing any menu entry shows at least one card and at most the entry's displayed count |
| Archive.MatchBounds | js/archive.js:224-234 | A label listed by some card matches at least one card and at most as many cards as it has occurrences |
| Archive.MatchLower | js/archive.js:224-234 | A label listed by some card matches at least one card |
| Archive.MatchUpper | js/archive.js:224-234 | A label matches no more cards than it has occurrences |
| Archive.FilterLoop | js/archive.js:220-235 | The per-card loop computes the filtered cards and counts the visible ones, changing only their display |
| Archive.ShowAllLoop | js/archive.js:246-251 | The per-card loop shows every card in the viewport's layout |
| Archive.ResizeLoop | js/archive.js:301-308 | The per-card loop re-lays out the displayed cards only and keeps the visible count |
| Archive.FilterStatus | js/archive.js:258-259 | The status line ends with the chosen value |
| Archive.ArchivePage.constructor | js/archive.js:144-197 | Loading builds the two counts, fills both menus from the keys, and keeps the cards with their displays as loaded, with no notice and no status line shown |
| Archive.ArchivePage.ShowEmptyState | js/archive.js:272-290 | The notice is created only the first time and then reused, so at most one exists; without the list container nothing happens |
| Archive.ArchivePage.HideEmptyState | js/archive.js:293-298 | The notice, if any, is hidden and no notice is created |
| Archive.ArchivePage.FilterPosts | js/archive.js:220-242 | The cards are filtered; the returned count is the number of matching cards; the notice is shown iff none is visible, and it is created only then and never removed |
| Archive.ArchivePage.ShowAllPosts | js/archive.js:245-253 | Every card is shown and the notice hidden |
| Archive.ArchivePage.HandleResize | js/archive.js:301-308 | Only displayed cards are re-laid out, and the visible count is kept |
| Archive.ArchivePage.ShowCurrentFilter | js/archive.js:256-262 | The status line names the chosen value and is displayed |
| Archive.ArchivePage.HideCurrentFilter | js/archive.js:265-269 | The status line is hidden and the cards are untouched |
| Archive.ArchivePage.SelectItem | js/archive.js:184-191 | Choosing a menu entry makes it active and filters by its label; between one card and its displayed count are shown, so the notice stays hidden and none is created or removed |
| Archive.ArchivePage.SelectShowAll | js/archive.js:200-209 | "Show all" becomes active, every card is shown, and the notice and status line are hidden, each kept as it was (the status text, the number of notices) |
| PostPage.RunsAlternate | js/post.js:294 | Word runs and whitespace runs alternate, so their counts differ by at most one, depending on the end characters |
| PostPage.WordRunsTrimStart | js/post.js:294 | Leading whitespace does not change the number of words |
| PostPage.WordRunsSpaceAfter | js/post.js:294 | A trailing whitespace character adds no word |
| PostPage.WordRunsTrimEnd | js/post.js:294 | Trailing whitespace does not change the number of words |
| PostPage.AllSpaceNoWords | js/post.js:294 | A blank text has no words |
| PostPage.WordCountIsWordRuns | js/post.js:294 | Counting the pieces of the trimmed text split on whitespace runs gives the number of maximal non-whitespace runs, and zero for a blank text |
| PostPage.WordCount | js/post.js:294 | The word count is zero iff the text is blank |
| PostPage.InsertAt | js/post.js:274-281 | The selection is replaced by the text, the length changes by the difference, and the cursor lands the offset back from the end of the insertion |
| PostPage.ToolbarEffectOf | js/post.js:211-268 | A splice's cursor offset stays within the inserted text, and is zero whenever something was selected |
| PostPage.ToolbarWraps | js/post.js:208-268 | Every text action wraps the selection, or its placeholder, in its markup, stepping the cursor back over the closing markup exactly when nothing was selected; link, image and preview touch no text; any other action splices in nothing |
| PostPage.WrapCursor | js/post.js:212-281 | Wrapping an empty selection leaves the cursor right after the placeholder, before the closing markup; wrapping a selection leaves it after the whole replacement |
| PostPage.ToolbarCursor | js/post.js:200-281 | A toolbar text action puts the markup around the selection or placeholder and the cursor as above |
| PostPage.PreviewableFiles | js/post.js:352-362 | The loop keeps exactly the files that pass the gate, in order |
| PostPage.PreviewGate | js/post.js:352-362 | A file gets a preview iff it was picked, its type starts with `image/` and it is at most 5 MiB |
| PostPage.PostEditorPage.constructor | js/post.js:19-20 | The page opens in reading mode, with both dialogs closed and the counts computed once |
| PostPage.PostEditorPage.UpdateWordCount | js/post.js:289-301 | The counts become the value's length and its number of words; nothing else changes |
| PostPage.PostEditorPage.Input | js/post.js:598-599 | Typing replaces the textarea and refreshes both counts |
| PostPage.PostEditorPage.ToggleEditMode | js/post.js:92-128 | Edit mode flips; entering it fills a blank editor with the post's content; leaving it also leaves preview mode; the pane shown always follows the two flags |
| PostPage.PostEditorPage.TogglePreview | js/post.js:131-150 | Preview mode flips in edit mode only, so preview mode always implies edit mode |
| PostPage.PostEditorPage.InsertTextAtCursor | js/post.js:274-286 | The textarea becomes the splice of the text at the cursor, and the counts follow |
| PostPage.PostEditorPage.ShowLinkModal | js/post.js:431-442 | The link dialog opens with the selected text as its text when there is a selection |
| PostPage.PostEditorPage.CloseLinkModal | js/post.js:444-451 | The link dialog closes with both of its inputs cleared |
| PostPage.PostEditorPage.ShowImageModal | js/post.js:394-402 | The image dialog opens with its fields as they were, and nothing else changes |
| PostPage.PostEditorPage.CloseImageModal | js/post.js:404-409 | The image dialog closes and keeps its inputs |
| PostPage.PostEditorPage.FillLinkForm | js/post.js:522-523 | The link dialog's inputs hold what was typed |
| PostPage.PostEditorPage.FillImageForm | js/post.js:510-511 | The image dialog's inputs hold what was typed |
| PostPage.PostEditorPage.InsertImageToEditor | js/post.js:495-501 | The image snippet is spliced in at the cursor and the image dialog closes |
| PostPage.PostEditorPage.InsertImageUrl | js/post.js:509-519 | An empty address inserts nothing and keeps the dialog; otherwise the image snippet is inserted, the counts follow and the dialog closes |
| PostPage.PostEditorPage.InsertLink | js/post.js:521-533 | An empty address changes nothing; otherwise the link snippet, captioned by the text or else the address, is inserted, the counts follow and the dialog closes cleared |
| PostPage.PostEditorPage.HandleToolbarAction | js/post.js:200-272 | A text action splices its markup in and refreshes the counts; link opens its dialog prefilled with the selection; image opens its dialog; preview toggles preview mode; nothing else changes |
| PostPage.PostEditorPage.SavePost | js/post.js:462-473 | Nothing is collected outside edit mode; in edit mode the form fields and the editor's text are |
| PostPage.PostEditorPage.HandleKeydown | js/post.js:554-587 | Outside edit mode no key does anything; Ctrl+S saves the title, the text and the fields; Ctrl+B and Ctrl+I wrap in bold and italic; Escape closes the image dialog, else the link dialog, else leaves edit mode, never touching the text |
| PostPage.PostEditorPage.UploadFiles | js/post.js:348-373 | Exactly the files passing the gate get previews, in order; without the container nothing happens |
| NewPost.TwoDigits | js/editor.js:8-9 | A month or day below 100 is padded to exactly two digits that read back as itself |
| NewPost.FormatDate | js/editor.js:7-9 | For a real date, the formatted date has a two-digit month and day and reads back as the year, the one-based month and the day |
| NewPost.DefaultDateLength | js/editor.js:7-9 | For a four-digit year the default date is exactly ten characters long |
| NewPost.ImageDescription | js/editor.js:358-360 | The description is between 1 and 20 characters, all of them word characters, CJK ideographs, `.` or `-` |
| NewPost.Sanitize | js/editor.js:359 | The sanitised name has one allowed character per UTF-16 code unit of the name |
| NewPost.SanitizeUnits | js/editor.js:359 | Unit by unit, an allowed unit is kept and any other unit, a surrogate included, becomes `_` |
| NewPost.SanitizeClean | js/editor.js:359 | A name made only of allowed characters is left as it is |
| NewPost.DescriptionOfName | js/editor.js:358-359 | A given name is cut to 20 UTF-16 code units, and every unit that is not an allowed character becomes `_` |
| NewPost.DescriptionIdempotent | js/editor.js:358-360 | Sanitising a description again changes nothing |
| NewPost.DescriptionPlain | js/editor.js:358-360 | A description contains no `]`, `$` or line break |
| NewPost.DescriptionInSnippet | js/editor.js:358-361 | The uploaded image's snippet reads back as its description and address |
| NewPost.GuardedInsert | js/editor.js:382-396 | The selection is replaced by the text, with a line break added on a side whose neighbouring text would run on; the cursor lands after the insertion |
| NewPost.GuardedOnOwnLines | js/editor.js:388-395 | The text before and after is kept; the inserted text begins a line and ends one |
| NewPost.LeadEndsLine | js/editor.js:390 | After the leading guard the text before the insertion is empty or ends a line |
| NewPost.TrailStartsLine | js/editor.js:391 | Before the trailing guard the text after the insertion is empty or starts a line |
| NewPost.Placeholder | js/editor.js:326 | The placeholder starts with a `!` that does not recur, contains no line break and ends with `)` |
| NewPost.AfterUpload | js/editor.js:320-323 | A file over 10 MiB leaves the textarea untouched |
| NewPost.Announce | js/editor.js:326-327 | Unless the text before the cursor already holds it, the placeholder is first found right after that text and its line break |
| NewPost.ReplaceInEditor | js/editor.js:361-363 | The first occurrence of the pattern becomes the substituted replacement with the text around it kept; a text without the pattern is unchanged |
| NewPost.Settle | js/editor.js:361-363 | If the placeholder has gone from the text by the time the answer comes, the textarea is unchanged |
| NewPost.InsertedFoundFirst | js/editor.js:326-327 | A freshly inserted placeholder that was absent before the cursor is the first occurrence found |
| NewPost.InsertThenReplace | js/editor.js:361-363 | Replacing the inserted placeholder keeps the text on both sides and puts the substituted answer in its place |
| NewPost.UploadPlacement | js/editor.js:318-375 | An accepted upload leaves the text around the cursor as it was and puts the server's answer where the placeholder stood |
| NewPost.SuccessText | js/editor.js:358-363 | On success, with no `$` in the address, the placeholder becomes exactly the image snippet |
| NewPost.FailureText | js/editor.js:373-374 | On failure the placeholder becomes nothing |
| NewPost.UploadSucceeds | js/editor.js:318-364 | A successful upload leaves the image snippet, on its own line, where the cursor was |
| NewPost.UploadFails | js/editor.js:369-375 | A failed upload leaves only the line breaks the placeholder brought |
| NewPost.UploadAllSnoc | js/editor.js:271-275 | Uploading one more file is one more upload after the earlier ones |
| NewPost.NoImagesNoChange | js/editor.js:271-275 | A pick or drop without image files leaves the textarea untouched |
| NewPost.FirstImage | js/editor.js:283-291 | The index found is that of the first image item, and none is found only when no item is an image |
| NewPost.PreviewIgnoresOuterSpace | js/editor.js:29 | Outer whitespace never changes the preview |
| NewPost.PostProcess | js/editor.js:40-43 | No local `src="/images/` is left in the preview, every `<img ` in it starts the styled tag, and HTML with neither is shown as rendered |
| NewPost.ServedSrcApart | js/editor.js:40 | The server-prefixed image source cannot overlap a local one, so rewriting creates none |
| NewPost.StyledTagSelfApart | js/editor.js:43 | The styled tag begins with `<img ` and contains no other start of one |
| NewPost.StyledTagApart | js/editor.js:43 | The styled tag cannot overlap a local image source |
| NewPost.PreviewOf | js/editor.js:28-50 | A blank text shows the fixed placeholder, and a text the renderer rejects shows the error notice |
| NewPost.DialogSnippet | js/editor.js:236-245 | The dialog has no snippet iff the path is blank |
| NewPost.DialogSnippetReadsBack | js/editor.js:236-245 | The dialog's snippet reads back as a non-empty alt text and the trimmed path |
| NewPost.ParseTags | js/editor.js:469 | Each tag is non-empty, trimmed and comma-free |
| NewPost.TagsNormalised | js/editor.js:469 | No tags for an empty field; a string is a tag iff some piece trims to it; the tags joined with commas parse back to themselves |
| NewPost.SubmissionOf | js/editor.js:466-472 | The submitted title, categories and body carry no outer whitespace; the body is empty iff the field was blank; the tags are those of the tags field |
| NewPost.AnyAcceptedExists | js/editor.js:318-328 | The preview is refreshed by a batch exactly when some file of it is an image within 10 MiB |
| NewPost.NewPostEditor.constructor | js/editor.js:5-10 | The date field holds today's date formatted as year, two-digit month and two-digit day, and the preview is drawn once from the initial text |
| NewPost.NewPostEditor.UpdatePreview | js/editor.js:28-50 | The preview becomes the preview of the current text |
| NewPost.NewPostEditor.Input | js/editor.js:22 | Typing replaces the textarea and refreshes the preview |
| NewPost.NewPostEditor.InsertTextAtCursor | js/editor.js:382-398 | The textarea becomes the guarded insertion of the text |
| NewPost.NewPostEditor.InsertFromDialog | js/editor.js:236-249 | The dialog inserts its snippet and refreshes the preview exactly when the path is not blank |
| NewPost.NewPostEditor.BeginUpload | js/editor.js:318-328 | An oversized file changes nothing; otherwise the placeholder goes in at the cursor and the preview follows |
| NewPost.NewPostEditor.FinishUpload | js/editor.js:356-375 | Whatever the text has become meanwhile, its first placeholder is replaced by the answer and the preview follows |
| NewPost.NewPostEditor.UploadImage | js/editor.js:318-379 | An oversized file changes nothing; otherwise the placeholder is inserted and replaced by the answer, and the preview follows |
| NewPost.NewPostEditor.ReplacePlaceholder | js/editor.js:362-363 | The textarea's value becomes its first-occurrence replacement |
| NewPost.NewPostEditor.UploadFiles | js/editor.js:269-277 | Picked or dropped files upload every image, in order, skipping the rest; the preview changes only when some upload was accepted |
| NewPost.NewPostEditor.Paste | js/editor.js:280-293 | A paste uploads the first image item only, and the preview follows when it was accepted; without one nothing changes |

## Left out

- `js/main.js` is not part of this model: it only reads local storage and animates a toast.
- The table-of-contents scroll sync of `js/post.js:23-89` depends on browser scrolling and observers.
- The thumbnail load and error callbacks and the delayed re-checks of `js/archive.js:22-141` depend on asynchronous image loading. Only the index arithmetic and the error handler's comparison are modelled.
- Network, `FileReader` and clipboard calls are left out: the upload endpoint, the post endpoint, the data URL of a preview, and the copy button. The upload's outcome is an input.
- The markdown renderers are left out. The library call in `js/editor.js` is the `render` parameter. The regular-expression renderer of `js/post.js:152-186` would need a model of JavaScript regular expressions.
- The clock is left out. The date parts and the placeholder's time stamp are parameters.
- The submitted date's ISO conversion is left out, as is the floating-point kilobyte figure of the success message.
- Presentation is left out: styles, class toggles, focus, toast messages, dialog construction and the tab switching of the image dialog.
- Concurrent uploads are left out. Uploads run one after the other, as the `for … await` loops do.
- NewPost.Settle: its own contract states only the case where the placeholder has gone; the placement of the answer is stated on ReplaceInEditor, which Settle applies to the placeholder and the answer text.
- NewPost.NewPostEditor.UploadImage: runs BeginUpload and FinishUpload back to back. An edit typed while the request is out is an Input call between the two halves, and Settle (through ReplaceInEditor) states where the answer then lands. UploadFiles and Paste compose uninterrupted uploads.
- Editing.SetValue: the browser's normalisation of CR and CRLF to LF when `value` is assigned is left out; the assigned text is kept as given.
- Post previews are recorded in file order. The asynchronous file reads are not modelled.
- Strings are sequences of Unicode scalar values. JavaScript counts UTF-16 code units, which differ for characters outside the Basic Multilingual Plane in lengths and selection offsets. The sort order and the image description do follow code units.
- Required elements are assumed present. The optional `#archive-list` and `#uploaded-images` containers are inputs. The other optional elements are assumed present too: `#current-filter` (`js/archive.js:256-269`), `#show-all` (`js/archive.js:200`), the two submenus (`js/archive.js:168`), and `#image-modal` and `#link-modal` (`js/post.js:396`, `js/post.js:432`).
- The browser's own insertion of pasted text is left out when no image is pasted.
- The viewport is an integer width, compared with the 900-pixel breakpoint.
- PostPage.PostEditorPage.ToggleEditMode: entering edit mode may fill the editor without refreshing the counts, as the source does; the counts are not stated to match the new value.
- PostPage.InsertAt: the cursor is stated only when the offset stays within the inserted text and the new value is shorter than 2^32 characters. Past that, the model clamps as the browser does, but no property is stated.
- PostPage.WrapCursor: requires the value and markup to stay under 2^32 characters, the bound of the browser's selection offsets.
- PostPage.ToolbarCursor: requires the value to stay under 2^32 - 32 characters, for the same reason.
- NewPost.GuardedInsert: the cursor is stated only for values shorter than 2^32 characters.
- NewPost.UploadSucceeds: requires the server's address to contain no `$`, since `String.prototype.replace` would expand it. NewPost.UploadPlacement states the general case with the substitution patterns.
- NewPost.UploadPlacement: requires the placeholder to be absent from the text before the cursor. Two uploads started in the same millisecond, or an identical string typed by hand, would make the first occurrence another one.

## Findings

| source | as written | input that shows it | evidently intended | confidence | as-written member | corrected member |
|---|---|---|---|---|---|---|
| js/archive.js:96 | The error handler of a fallback thumbnail compares `this.src`, which the browser reports resolved against the page's origin, with the bare path `/images/N.gif`. The two never match, so the handler reloads the next image after every failure and never reaches the placeholder branch. | origin `http://localhost`, image index 0: after `/images/2.gif` fails, `this.src` is `http://localhost/images/2.gif`, not `/images/2.gif`, so `/images/2.gif` is loaded again and again | compare with the resolved address, so the second failure shows the placeholder and clears the handlers | not executed | Archive.FallbackNeverGivesUp | Archive.FallbackGivesUpAfterRetry |
