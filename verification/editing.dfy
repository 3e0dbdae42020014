/**
 * The `<textarea>` both editors write into, and the markdown snippets they
 * insert. A textarea is its value and its selection; the DOM keeps
 * `selectionStart <= selectionEnd <= value.length` at all times.
 */
module Editing {
  import opened Text

  datatype Textarea = Textarea(value: string, selStart: nat, selEnd: nat)
  {
    predicate WellFormed() {
      selStart <= selEnd <= |value|
    }

    /** The text before the selection, the selection, the text after it. */
    function Before(): string
      requires WellFormed()
    {
      value[..selStart]
    }

    function Selected(): string
      requires WellFormed()
    {
      value[selStart..selEnd]
    }

    function After(): string
      requires WellFormed()
    {
      value[selEnd..]
    }
  }

  /** The three parts of a well-formed textarea make up its value. */
  lemma PartsMakeValue(t: Textarea)
    requires t.WellFormed()
    ensures t.Before() + t.Selected() + t.After() == t.value
  {
  }

  /** Assigning `textarea.value`: when the new value differs from the old one
      the selection collapses to the end of the new value (section 4.10.11 of
      the HTML standard); assigning the same value changes nothing. */
  function SetValue(t: Textarea, v: string): (r: Textarea)
    requires t.WellFormed()
    ensures r.WellFormed() && r.value == v
    ensures v != t.value ==> r.selStart == r.selEnd == |v|
    ensures v == t.value ==> r == t
  {
    if v == t.value then t else Textarea(v, |v|, |v|)
  }

  /** A selection offset as `setSelectionRange` takes it: converted to an
      unsigned 32-bit integer, as Web IDL converts a JavaScript number to
      `unsigned long`, then clamped to the length of the value. */
  function SelectionPoint(n: int, len: nat): (p: nat)
    ensures p <= len
    ensures 0 <= n <= len && n < 0x1_0000_0000 ==> p == n
  {
    var u := n % 0x1_0000_0000;
    if u > len then len else u
  }

  /** `textarea.setSelectionRange(a, b)`: both ends clamped, and a start past
      the end moved to the end. */
  function SetSelectionRange(t: Textarea, a: int, b: int): (r: Textarea)
    ensures r.WellFormed() && r.value == t.value
    ensures 0 <= a <= b <= |t.value| && b < 0x1_0000_0000 ==> r.selStart == a && r.selEnd == b
  {
    var e := SelectionPoint(b, |t.value|);
    var s := SelectionPoint(a, |t.value|);
    Textarea(t.value, if s > e then e else s, e)
  }

  /** Assigning `selectionEnd`: `setSelectionRange(selectionStart, n)`. */
  function SetSelectionEnd(t: Textarea, n: int): (r: Textarea)
    ensures r.WellFormed() && r.value == t.value
    ensures t.WellFormed() && 0 <= n <= |t.value| < 0x1_0000_0000 ==>
      r.selEnd == n && r.selStart == (if t.selStart <= n then t.selStart else n)
  {
    SetSelectionRange(t, t.selStart, n)
  }

  /** Assigning `selectionStart`: the end is kept, or moved up to the new
      start when that lies past it. */
  function SetSelectionStart(t: Textarea, n: int): (r: Textarea)
    ensures r.WellFormed() && r.value == t.value
    ensures t.WellFormed() && 0 <= n <= |t.value| < 0x1_0000_0000 ==>
      r.selStart == n && r.selEnd == (if t.selEnd <= n then n else t.selEnd)
  {
    var u := n % 0x1_0000_0000;
    SetSelectionRange(t, u, if u > t.selEnd then u else t.selEnd)
  }

  /** A file as a file picker, a drop or the clipboard hands it over. */
  datatype FileInfo = FileInfo(name: string, mime: string, size: nat)

  /** `file.type.startsWith('image/')`. */
  predicate IsImage(f: FileInfo) {
    StartsWith(f.mime, "image/")
  }

  // ---------------------------------------------------------------------------
  // Markdown snippets
  // ---------------------------------------------------------------------------

  /** `prefix + caption + "](" + target + ")"`: a markdown link for the prefix
      `[`, a markdown image for the prefix `![`. */
  function Bracketed(prefix: string, caption: string, target: string): string
  {
    prefix + caption + "](" + target + ")"
  }

  function ImageMarkdown(alt: string, src: string): (r: string)
    ensures StartsWith(r, "![") && EndsWith(r, ")")
    ensures |r| == |alt| + |src| + 5
  {
    Bracketed("![", alt, src)
  }

  function LinkMarkdown(text: string, url: string): (r: string)
    ensures StartsWith(r, "[") && EndsWith(r, ")")
    ensures |r| == |text| + |url| + 4
  {
    Bracketed("[", text, url)
  }

  /** Reads a snippet back: the caption runs up to the first `](`, the target
      from there to the closing parenthesis. */
  function ParseBracketed(prefix: string, s: string): Option<(string, string)>
  {
    if !StartsWith(s, prefix) || !EndsWith(s, ")") || |s| < |prefix| + 1 then None
    else
      var body := s[|prefix|..|s| - 1];
      match IndexOf(body, "](")
      case None => None
      case Some(k) => Some((body[..k], body[k + 2..]))
  }

  /** A snippet whose caption has no `]` reads back as its caption and target. */
  lemma BracketedRoundTrip(prefix: string, caption: string, target: string)
    requires ']' !in caption
    ensures ParseBracketed(prefix, Bracketed(prefix, caption, target)) == Some((caption, target))
  {
    var s := Bracketed(prefix, caption, target);
    var body := s[|prefix|..|s| - 1];
    assert body == caption + "](" + target;
    forall j | 0 <= j < |caption| ensures !OccursAt(caption + "](" + target, "](", j) {
      var whole := caption + "](" + target;
      assert whole[j] == caption[j] != ']';
      assert j + 2 <= |whole| ==> whole[j..j + 2][0] == whole[j];
    }
    IndexOfAfter(caption, "](", target);
    assert body[..|caption|] == caption;
    assert body[|caption| + 2..] == target;
  }

  /** Image snippets read back as their alt text and source. */
  lemma ImageMarkdownRoundTrip(alt: string, src: string)
    requires ']' !in alt
    ensures ParseBracketed("![", ImageMarkdown(alt, src)) == Some((alt, src))
  {
    BracketedRoundTrip("![", alt, src);
  }

  /** Link snippets read back as their text and address. */
  lemma LinkMarkdownRoundTrip(text: string, url: string)
    requires ']' !in text
    ensures ParseBracketed("[", LinkMarkdown(text, url)) == Some((text, url))
  {
    BracketedRoundTrip("[", text, url);
  }
}
