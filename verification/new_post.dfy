/**
 * The new-post page: a markdown editor with a live preview, an image dialog,
 * image uploads announced by a placeholder that the server's answer then
 * replaces, the default date, and the fields the post is submitted with.
 */
module NewPost {
  import opened Text
  import opened Editing

  // ---------------------------------------------------------------------------
  // The default date
  // ---------------------------------------------------------------------------

  /** `year + '-' + pad2(month + 1) + '-' + pad2(day)`, where `month0` counts
      months from 0 as `Date.prototype.getMonth` does. For a real date the
      month and the day take two digits each, and the date reads back as
      the year, the month counted from 1, and the day. */
  function FormatDate(year: int, month0: nat, day: nat): (r: string)
    ensures year >= 0 && month0 < 12 && 1 <= day <= 31 ==>
      |r| == |Decimal(year)| + 6 && ParseDate(r) == Some((year, month0 + 1, day))
  {
    var y, m, d := IntToString(year), PadStart2(Decimal(month0 + 1)), PadStart2(Decimal(day));
    var date := y + "-" + m + "-" + d;
    if year >= 0 && month0 < 12 && 1 <= day <= 31 then
      TwoDigits(month0 + 1);
      TwoDigits(day);
      DecimalRoundTrip(year);
      ParseDateParts(y, m, d);
      date
    else
      date
  }

  /** Reads a date back: digits, a dash, two digits, a dash, two digits. */
  function ParseDate(s: string): Option<(nat, nat, nat)>
  {
    if |s| < 7 || s[|s| - 6] != '-' || s[|s| - 3] != '-' then None
    else
      var y := s[..|s| - 6];
      var m := s[|s| - 5..|s| - 3];
      var d := s[|s| - 2..];
      if AllDigits(y) && AllDigits(m) && AllDigits(d) then Some((ParseDecimal(y), ParseDecimal(m), ParseDecimal(d)))
      else None
  }

  /** A number below 100, padded to two places, is two digits that read back as it. */
  lemma TwoDigits(n: nat)
    requires n < 100
    ensures |PadStart2(Decimal(n))| == 2 && AllDigits(PadStart2(Decimal(n)))
    ensures ParseDecimal(PadStart2(Decimal(n))) == n
  {
    DecimalRoundTrip(n);
    var r := PadStart2(Decimal(n));
    if n < 10 {
      assert r == "0" + Decimal(n);
      assert r[..1] == "0";
      assert ParseDecimal(r[..1]) == 0;
    } else {
      assert Decimal(n) == Decimal(n / 10) + [DigitChar(n % 10)];
    }
  }

  /** Where the three parts of a date sit in it. */
  lemma DateSlices(y: string, m: string, d: string)
    requires |m| == 2 && |d| == 2
    ensures var s := y + "-" + m + "-" + d;
      && |s| == |y| + 6 && s[|s| - 6] == '-' && s[|s| - 3] == '-'
      && s[..|s| - 6] == y && s[|s| - 5..|s| - 3] == m && s[|s| - 2..] == d
  {
    var s := y + "-" + m + "-" + d;
    assert s == y + ("-" + m + "-" + d);
    assert s[..|y|] == y;
  }

  /** Digits, a dash, two digits, a dash and two digits parse as the three numbers. */
  lemma ParseDateParts(y: string, m: string, d: string)
    requires y != "" && AllDigits(y) && AllDigits(m) && AllDigits(d) && |m| == 2 && |d| == 2
    ensures ParseDate(y + "-" + m + "-" + d) == Some((ParseDecimal(y), ParseDecimal(m), ParseDecimal(d)))
  {
    DateSlices(y, m, d);
  }

  /** A number from 1000 to 9999 has four digits. */
  lemma FourDigits(n: nat)
    requires 1000 <= n <= 9999
    ensures |Decimal(n)| == 4
  {
    var hundreds := n / 10;
    var tens := hundreds / 10;
    assert 100 <= hundreds < 1000 && 10 <= tens < 100;
    assert |Decimal(tens)| == 2;
    assert |Decimal(hundreds)| == 3;
  }

  /** A four-digit year gives the ten characters `yyyy-mm-dd`. */
  lemma DefaultDateLength(year: nat, month0: nat, day: nat)
    requires 1000 <= year <= 9999 && month0 < 12 && 1 <= day <= 31
    ensures |FormatDate(year, month0, day)| == 10
  {
    FourDigits(year);
  }

  // ---------------------------------------------------------------------------
  // Image descriptions
  // ---------------------------------------------------------------------------

  /** The characters the description keeps: `\w` (ASCII letters, digits and
      `_`), the CJK range U+4E00 to U+9FA5, `.` and `-`. */
  predicate NameChar(c: char) {
    || 'A' <= c <= 'Z' || 'a' <= c <= 'z' || '0' <= c <= '9' || c == '_'
    || '\U{4E00}' <= c <= '\U{9FA5}' || c == '.' || c == '-'
  }

  /** A UTF-16 code unit the description keeps: one that is itself a
      `NameChar` (every `NameChar` lies below the surrogates). */
  predicate NameUnit(u: int) {
    0 <= u < 0xD800 && NameChar(u as char)
  }

  /** `name.replace(/[^\w\u4e00-\u9fa5.-]/g, '_')`. The regex has no `u`
      flag, so it matches code units: a character outside the Basic
      Multilingual Plane, a surrogate pair, becomes `__`. */
  function Sanitize(name: string): (r: string)
    ensures |r| == |CodeUnits(name)|
    ensures forall i :: 0 <= i < |r| ==> NameChar(r[i])
    decreases |name|
  {
    if name == [] then []
    else
      var c := name[0];
      (if NameChar(c) then [c] else if c as int < 0x10000 then "_" else "__") + Sanitize(name[1..])
  }

  /** The replacement goes code unit by code unit: each unit that is a
      kept character stays, every other unit becomes `_`. */
  lemma {:induction false} SanitizeUnits(name: string)
    ensures var r := Sanitize(name);
      var units := CodeUnits(name);
      |r| == |units| && forall i :: 0 <= i < |r| ==> r[i] as int == (if NameUnit(units[i]) then units[i] else '_' as int)
    decreases |name|
  {
    if name != [] {
      var c := name[0];
      var head := if NameChar(c) then [c] else if c as int < 0x10000 then "_" else "__";
      var r, rest := Sanitize(name), Sanitize(name[1..]);
      var units, restUnits := CodeUnits(name), CodeUnits(name[1..]);
      SanitizeUnits(name[1..]);
      assert r == head + rest && units == Units(c) + restUnits;
      forall i | 0 <= i < |r|
        ensures r[i] as int == (if NameUnit(units[i]) then units[i] else '_' as int)
      {
        if i >= |head| {
          assert r[i] == rest[i - |head|] && units[i] == restUnits[i - |head|];
        } else {
          assert units[i] == Units(c)[i];
        }
      }
    }
  }

  /** A name made of kept characters only is left as it is. */
  lemma {:induction false} SanitizeClean(name: string)
    requires forall i :: 0 <= i < |name| ==> NameChar(name[i])
    ensures Sanitize(name) == name
    decreases |name|
  {
    if name != [] {
      SanitizeClean(name[1..]);
      assert name == [name[0]] + name[1..];
    }
  }

  const MaxDescriptionLength: nat := 20

  /** The description of an uploaded image: the server's name for the file
      sanitised, cut to 20 code units (the sanitised name has one character
      per code unit); or `image` when the server names no file. */
  function ImageDescription(originalName: Option<string>): (r: string)
    ensures 1 <= |r| <= MaxDescriptionLength
    ensures forall i :: 0 <= i < |r| ==> NameChar(r[i])
  {
    match originalName
    case None => "image"
    case Some(name) =>
      if name == "" then "image"
      else
        var cleaned := Sanitize(name);
        if |cleaned| <= MaxDescriptionLength then cleaned else cleaned[..MaxDescriptionLength]
  }

  /** A named file keeps the first 20 code units of its name, position by
      position, each one or its `_` replacement. */
  lemma DescriptionOfName(name: string)
    requires name != ""
    ensures var r := ImageDescription(Some(name));
      var units := CodeUnits(name);
      && |r| == (if |units| <= MaxDescriptionLength then |units| else MaxDescriptionLength)
      && forall i :: 0 <= i < |r| ==> r[i] as int == (if NameUnit(units[i]) then units[i] else '_' as int)
  {
    SanitizeUnits(name);
  }

  /** A description is its own description. */
  lemma DescriptionIdempotent(originalName: Option<string>)
    ensures ImageDescription(Some(ImageDescription(originalName))) == ImageDescription(originalName)
  {
    SanitizeClean(ImageDescription(originalName));
  }

  /** A description has no `]`, no `$` and no line break. */
  lemma DescriptionPlain(originalName: Option<string>)
    ensures var r := ImageDescription(originalName);
      ']' !in r && '$' !in r && '\n' !in r
  {
    var r := ImageDescription(originalName);
    forall i | 0 <= i < |r| ensures r[i] != ']' && r[i] != '$' && r[i] != '\n' {
      assert NameChar(r[i]);
    }
  }

  /** A description holds no `]`, so the image snippet it goes into reads
      back as the description and the address. */
  lemma DescriptionInSnippet(originalName: Option<string>, url: string)
    ensures ParseBracketed("![", ImageMarkdown(ImageDescription(originalName), url))
         == Some((ImageDescription(originalName), url))
  {
    DescriptionPlain(originalName);
    ImageMarkdownRoundTrip(ImageDescription(originalName), url);
  }

  // ---------------------------------------------------------------------------
  // Inserting on a line of its own
  // ---------------------------------------------------------------------------

  /** The line break put in front of an insertion that would otherwise
      continue the line before the cursor. */
  function LeadBreak(before: string): string {
    if before != "" && !EndsWith(before, "\n") then "\n" else ""
  }

  /** The line break put after an insertion that the text after the cursor
      would otherwise continue. */
  function TrailBreak(after: string): string {
    if after != "" && !StartsWith(after, "\n") then "\n" else ""
  }

  /** The text between `before` and `after` on lines of its own: a line
      break is added on either side where the neighbouring text would run on. */
  function GuardedText(before: string, text: string, after: string): string {
    before + LeadBreak(before) + text + TrailBreak(after) + after
  }

  /** `insertTextAtCursor(text)` of the new-post editor: the selection is
      replaced by `text` on lines of its own, and the cursor is put after the
      insertion by assigning `selectionEnd` and then `selectionStart`. */
  function GuardedInsert(t: Textarea, text: string): (r: Textarea)
    requires t.WellFormed()
    ensures r.WellFormed()
    ensures r.value == GuardedText(t.Before(), text, t.After())
    ensures |r.value| < 0x1_0000_0000 ==>
      r.selStart == r.selEnd == t.selStart + |LeadBreak(t.Before())| + |text| + |TrailBreak(t.After())|
  {
    var before := t.value[..t.selStart];
    var after := t.value[t.selEnd..];
    var inserted := LeadBreak(before) + text + TrailBreak(after);
    var cursor := t.selStart + |inserted|;
    var spliced := SetValue(t, before + inserted + after);
    SetSelectionStart(SetSelectionEnd(spliced, cursor), cursor)
  }

  /** The inserted text starts a line and ends one, and the text around it
      is kept. */
  lemma GuardedOnOwnLines(b: string, text: string, e: string)
    ensures var v := GuardedText(b, text, e);
      var p := |b| + |LeadBreak(b)|;
      var q := p + |text|;
      && q + |TrailBreak(e)| + |e| == |v|
      && v[..|b|] == b
      && v[p..q] == text
      && v[q + |TrailBreak(e)|..] == e
      && (p == 0 || v[p - 1] == '\n')
      && (q == |v| || v[q] == '\n')
  {
    var lead, trail := LeadBreak(b), TrailBreak(e);
    LeadEndsLine(b);
    TrailStartsLine(e);
    Spliced(b + lead, text, trail + e);
    assert GuardedText(b, text, e) == (b + lead) + text + (trail + e);
    assert (b + lead)[..|b|] == b;
    assert (trail + e)[|trail|..] == e;
  }

  /** The text before an insertion, with its line break, is empty or ends a
      line. */
  lemma LeadEndsLine(b: string)
    ensures var x := b + LeadBreak(b); x == [] || x[|x| - 1] == '\n'
  {
    if b != [] && LeadBreak(b) == "" {
      assert b[|b| - 1..] == "\n";
      assert b[|b| - 1] == b[|b| - 1..][0];
    }
  }

  /** The text after an insertion, with its line break, is empty or starts a
      line. */
  lemma TrailStartsLine(e: string)
    ensures var x := TrailBreak(e) + e; x == [] || x[0] == '\n'
  {
    if e != [] && TrailBreak(e) == "" {
      assert e[..1] == "\n";
      assert e[0] == e[..1][0];
    }
  }

  /** Where the three parts of a spliced text lie. */
  lemma Spliced(x: string, m: string, y: string)
    ensures var v := x + m + y;
      && v[..|x|] == x && v[|x|..|x| + |m|] == m && v[|x| + |m|..] == y
      && (|x| > 0 ==> v[|x| - 1] == x[|x| - 1])
      && (|y| > 0 ==> v[|x| + |m|] == y[0])
  {
  }

  // ---------------------------------------------------------------------------
  // Uploads
  // ---------------------------------------------------------------------------

  const MaxUploadBytes: nat := 10 * 1024 * 1024

  /** The text shown while an image uploads; `stamp` is the clock reading
      (`Date.now()`) at the start of the upload. Its `!` does not recur, so
      it cannot overlap itself. */
  function Placeholder(stamp: nat): (r: string)
    ensures |r| > 0 && r[0] == '!' && '!' !in r[1..]
    ensures '\n' !in r && r[|r| - 1] == ')'
  {
    var digits := Decimal(stamp);
    var tail := "[上传中...](uploading-" + digits + ")";
    assert '!' !in tail && '\n' !in tail by {
      forall i | 0 <= i < |digits| ensures digits[i] != '!' && digits[i] != '\n' {
        assert IsDigit(digits[i]);
      }
    }
    assert ("!" + tail)[1..] == tail;
    "!" + tail
  }

  /** What the upload endpoint answered: the address of the stored image and
      the file's original name, or a failure of any kind. */
  datatype UploadAnswer = Uploaded(url: string, originalName: Option<string>) | Failed

  /** One upload as the page meets it: the file, the clock reading when its
      upload starts, and the server's answer. */
  datatype Upload = Upload(file: FileInfo, stamp: nat, answer: UploadAnswer)

  /** What replaces the placeholder once the server has answered. */
  function UploadedText(answer: UploadAnswer): string {
    match answer
    case Uploaded(url, name) => ImageMarkdown(ImageDescription(name), url)
    case Failed => ""
  }

  /** The text with the placeholder of an upload inserted at the cursor.
      Unless the text before the cursor already holds it, the placeholder
      is first found where it was inserted, past that text and its line
      break. */
  function Announce(t: Textarea, stamp: nat): (r: Textarea)
    requires t.WellFormed()
    ensures r.WellFormed()
    ensures IndexOf(t.Before(), Placeholder(stamp)).None? ==>
      IndexOf(r.value, Placeholder(stamp)) == Some(|t.Before()| + |LeadBreak(t.Before())|)
  {
    PlaceholderFoundFirst(t, stamp);
    GuardedInsert(t, Placeholder(stamp))
  }

  lemma PlaceholderFoundFirst(t: Textarea, stamp: nat)
    requires t.WellFormed()
    ensures IndexOf(t.Before(), Placeholder(stamp)).None? ==>
      IndexOf(GuardedInsert(t, Placeholder(stamp)).value, Placeholder(stamp))
        == Some(|t.Before()| + |LeadBreak(t.Before())|)
  {
    var p := Placeholder(stamp);
    assert p[0] == '!' && p[0] !in p[1..] && p[|p| - 1] != '\n';
    if IndexOf(t.Before(), p).None? {
      InsertedFoundFirst(t, p);
      var a := t.Before() + LeadBreak(t.Before());
      assert |a| == |t.Before()| + |LeadBreak(t.Before())|;
    }
  }

  /** The textarea with the first occurrence of `p` replaced: the text
      around that occurrence is kept, and a text without `p` is left as it
      is. */
  function ReplaceInEditor(t: Textarea, p: string, repl: string): (r: Textarea)
    requires t.WellFormed()
    ensures r.WellFormed()
    ensures IndexOf(t.value, p).None? ==> r == t
    ensures IndexOf(t.value, p).Some? ==>
      var k := IndexOf(t.value, p).value;
      var ins := Substitute(repl, p, t.value[..k], t.value[k + |p|..]);
      r.value == t.value[..k] + ins + t.value[k + |p|..]
  {
    SetValue(t, ReplaceFirst(t.value, p, repl))
  }

  /** The text, as it is when the server answers, with the first occurrence
      of the placeholder replaced by what the answer calls for. */
  function Settle(t: Textarea, stamp: nat, answer: UploadAnswer): (r: Textarea)
    requires t.WellFormed()
    ensures r.WellFormed()
    ensures IndexOf(t.value, Placeholder(stamp)).None? ==> r == t
  {
    ReplaceInEditor(t, Placeholder(stamp), UploadedText(answer))
  }

  /** `uploadImage(file)` on the editor: a file over 10 MiB is refused before
      anything is inserted; otherwise the placeholder is inserted and its
      first occurrence is then replaced by the image snippet, or by nothing
      when the upload failed. */
  function AfterUpload(t: Textarea, u: Upload): (r: Textarea)
    requires t.WellFormed()
    ensures r.WellFormed()
    ensures u.file.size > MaxUploadBytes ==> r == t
  {
    if u.file.size > MaxUploadBytes then t
    else Settle(Announce(t, u.stamp), u.stamp, u.answer)
  }

  /** Text with no line break keeps out of a text that did not contain it
      when a line break is appended. */
  lemma AbsentAfterBreak(a: string, p: string)
    requires p != [] && p[|p| - 1] != '\n'
    requires IndexOf(a, p).None?
    ensures IndexOf(a + "\n", p).None?
  {
    var s := a + "\n";
    forall j | 0 <= j ensures !OccursAt(s, p, j) {
      if j + |p| <= |a| {
        assert !OccursAt(a, p, j);
        assert s[j..j + |p|] == a[j..j + |p|];
      } else if j + |p| == |s| {
        assert s[j..j + |p|][|p| - 1] == '\n';
      }
    }
  }

  /** The guarded insertion of `p` is `p` between the text before it
      (with its line break) and the text after it (with its line break). */
  lemma GuardedParts(t: Textarea, p: string)
    requires t.WellFormed()
    ensures GuardedInsert(t, p).value
         == (t.Before() + LeadBreak(t.Before())) + p + (TrailBreak(t.After()) + t.After())
  {
  }

  /** A text that cannot overlap itself is still absent from the text
      before the cursor once that text gets its line break. */
  lemma AbsentBeforeInsert(t: Textarea, p: string)
    requires t.WellFormed()
    requires p != [] && p[|p| - 1] != '\n'
    requires IndexOf(t.Before(), p).None?
    ensures IndexOf(t.Before() + LeadBreak(t.Before()), p).None?
  {
    if LeadBreak(t.Before()) != "" {
      AbsentAfterBreak(t.Before(), p);
    } else {
      assert t.Before() + LeadBreak(t.Before()) == t.Before();
    }
  }

  /** A text that cannot overlap itself and is not already before the
      cursor is first found where it was inserted. */
  lemma InsertedFoundFirst(t: Textarea, p: string)
    requires t.WellFormed()
    requires p != [] && p[0] !in p[1..] && p[|p| - 1] != '\n'
    requires IndexOf(t.Before(), p).None?
    ensures var a := t.Before() + LeadBreak(t.Before());
      var c := TrailBreak(t.After()) + t.After();
      GuardedInsert(t, p).value == a + p + c && IndexOf(a + p + c, p) == Some(|a|)
  {
    GuardedParts(t, p);
    AbsentBeforeInsert(t, p);
    IndexOfPlaced(t.Before() + LeadBreak(t.Before()), p, TrailBreak(t.After()) + t.After());
  }

  /** Inserting such a text and then replacing its first occurrence puts the
      replacement where the text was inserted. */
  lemma InsertThenReplace(t: Textarea, p: string, repl: string)
    requires t.WellFormed()
    requires p != [] && p[0] !in p[1..] && p[|p| - 1] != '\n'
    requires IndexOf(t.Before(), p).None?
    ensures var a := t.Before() + LeadBreak(t.Before());
      var c := TrailBreak(t.After()) + t.After();
      ReplaceFirst(GuardedInsert(t, p).value, p, repl) == a + Substitute(repl, p, a, c) + c
  {
    InsertedFoundFirst(t, p);
    ReplaceFirstPlaced(t.Before() + LeadBreak(t.Before()), p, TrailBreak(t.After()) + t.After(), repl);
  }

  /** When the placeholder is not already in the text before the cursor, the
      answer lands exactly where the placeholder was put: between the line
      breaks the insertion added, with the text around it kept. The
      replacement goes through `String.prototype.replace`, so its `$`
      patterns are expanded. */
  lemma UploadPlacement(t: Textarea, u: Upload)
    requires t.WellFormed() && u.file.size <= MaxUploadBytes
    requires IndexOf(t.Before(), Placeholder(u.stamp)).None?
    ensures var a := t.Before() + LeadBreak(t.Before());
      var c := TrailBreak(t.After()) + t.After();
      AfterUpload(t, u).value == a + Substitute(UploadedText(u.answer), Placeholder(u.stamp), a, c) + c
  {
    InsertThenReplace(t, Placeholder(u.stamp), UploadedText(u.answer));
    assert AfterUpload(t, u) == Settle(Announce(t, u.stamp), u.stamp, u.answer);
  }

  /** The answer of a successful upload, substituted, is the image snippet
      when its address has no `$`. */
  lemma SuccessText(u: Upload, before: string, after: string)
    requires u.answer.Uploaded? && '$' !in u.answer.url
    ensures Substitute(UploadedText(u.answer), Placeholder(u.stamp), before, after)
         == ImageMarkdown(ImageDescription(u.answer.originalName), u.answer.url)
  {
    var desc := ImageDescription(u.answer.originalName);
    DescriptionPlain(u.answer.originalName);
    var md := ImageMarkdown(desc, u.answer.url);
    assert md == "![" + desc + "](" + u.answer.url + ")";
  }

  /** The answer of a failed upload is the empty text. */
  lemma FailureText(u: Upload, before: string, after: string)
    requires u.answer.Failed?
    ensures Substitute(UploadedText(u.answer), Placeholder(u.stamp), before, after) == []
  {
  }

  /** A successful upload whose address has no `$` leaves the image snippet
      on its own line where the cursor was. */
  lemma UploadSucceeds(t: Textarea, u: Upload)
    requires t.WellFormed() && u.file.size <= MaxUploadBytes && u.answer.Uploaded?
    requires IndexOf(t.Before(), Placeholder(u.stamp)).None?
    requires '$' !in u.answer.url
    ensures AfterUpload(t, u).value
         == (t.Before() + LeadBreak(t.Before()))
            + ImageMarkdown(ImageDescription(u.answer.originalName), u.answer.url)
            + (TrailBreak(t.After()) + t.After())
  {
    var a := t.Before() + LeadBreak(t.Before());
    var c := TrailBreak(t.After()) + t.After();
    UploadPlacement(t, u);
    SuccessText(u, a, c);
    SameMiddle(AfterUpload(t, u).value, a, Substitute(UploadedText(u.answer), Placeholder(u.stamp), a, c),
      ImageMarkdown(ImageDescription(u.answer.originalName), u.answer.url), c);
  }

  lemma SameMiddle(v: string, a: string, m: string, n: string, c: string)
    requires v == a + m + c && m == n
    ensures v == a + n + c
  {
  }

  /** A failed upload removes the placeholder and leaves only the line
      breaks its insertion added. */
  lemma UploadFails(t: Textarea, u: Upload)
    requires t.WellFormed() && u.file.size <= MaxUploadBytes && u.answer.Failed?
    requires IndexOf(t.Before(), Placeholder(u.stamp)).None?
    ensures AfterUpload(t, u).value == (t.Before() + LeadBreak(t.Before())) + (TrailBreak(t.After()) + t.After())
  {
    var a := t.Before() + LeadBreak(t.Before());
    var c := TrailBreak(t.After()) + t.After();
    UploadPlacement(t, u);
    FailureText(u, a, c);
    EmptyMiddle(AfterUpload(t, u).value, a, Substitute(UploadedText(u.answer), Placeholder(u.stamp), a, c), c);
  }

  lemma EmptyMiddle(v: string, a: string, m: string, c: string)
    requires v == a + m + c && m == []
    ensures v == a + c
  {
  }

  /** Whether the page uploads a file it is handed: an image type only. */
  predicate IsImageUpload(u: Upload) {
    IsImage(u.file)
  }

  /** Uploads, one after the other, in order. */
  function UploadAll(t: Textarea, us: seq<Upload>): (r: Textarea)
    requires t.WellFormed()
    ensures r.WellFormed()
  {
    if us == [] then t else AfterUpload(UploadAll(t, us[..|us| - 1]), us[|us| - 1])
  }

  /** One more upload at the end is one more step. */
  lemma UploadAllSnoc(t: Textarea, us: seq<Upload>, u: Upload)
    requires t.WellFormed()
    ensures UploadAll(t, us + [u]) == AfterUpload(UploadAll(t, us), u)
  {
    assert (us + [u])[..|us|] == us;
  }

  /** One more file at the end is one more upload when it is an image, and
      nothing otherwise. */
  lemma UploadAllFilteredSnoc(t: Textarea, us: seq<Upload>, i: nat)
    requires t.WellFormed() && i < |us|
    ensures IsImageUpload(us[i]) ==>
      UploadAll(t, Filter(us[..i + 1], IsImageUpload)) == AfterUpload(UploadAll(t, Filter(us[..i], IsImageUpload)), us[i])
    ensures !IsImageUpload(us[i]) ==>
      UploadAll(t, Filter(us[..i + 1], IsImageUpload)) == UploadAll(t, Filter(us[..i], IsImageUpload))
  {
    var u := us[i];
    var done := Filter(us[..i], IsImageUpload);
    assert us[..i + 1] == us[..i] + [u];
    FilterSnoc(us[..i], IsImageUpload, u);
    if IsImageUpload(u) {
      assert Filter(us[..i + 1], IsImageUpload) == done + [u];
      UploadAllSnoc(t, done, u);
    } else {
      assert Filter(us[..i + 1], IsImageUpload) == done + [];
      assert done + [] == done;
    }
  }

  /** With no image among them, the files leave the text as it was. */
  lemma NoImagesNoChange(t: Textarea, us: seq<Upload>)
    requires t.WellFormed()
    requires forall i :: 0 <= i < |us| ==> !IsImageUpload(us[i])
    ensures UploadAll(t, Filter(us, IsImageUpload)) == t
  {
    FilterNone(us, IsImageUpload);
  }

  /** The first pasted item with an image type, if any. */
  function FirstImage(items: seq<Upload>): (r: Option<nat>)
    ensures r.Some? ==>
      && r.value < |items| && IsImageUpload(items[r.value])
      && forall j :: 0 <= j < r.value ==> !IsImageUpload(items[j])
    ensures r.None? ==> forall j :: 0 <= j < |items| ==> !IsImageUpload(items[j])
  {
    if items == [] then None
    else if IsImageUpload(items[0]) then Some(0)
    else
      match FirstImage(items[1..])
      case None => None
      case Some(k) => Some(k + 1)
  }

  /** An image item with no image item before it is the first one. */
  lemma FirstImageAt(items: seq<Upload>, i: nat)
    requires i < |items| && IsImageUpload(items[i])
    requires forall j :: 0 <= j < i ==> !IsImageUpload(items[j])
    ensures FirstImage(items) == Some(i)
  {
  }

  /** Items none of which is an image have no first image. */
  lemma FirstImageNone(items: seq<Upload>)
    requires forall j :: 0 <= j < |items| ==> !IsImageUpload(items[j])
    ensures FirstImage(items) == None
  {
  }

  // ---------------------------------------------------------------------------
  // The preview
  // ---------------------------------------------------------------------------

  const EmptyPreview: string := "<div class=\"preview-empty\">开始编写内容，这里将显示实时预览...</div>"
  const ErrorPreview: string := "<div class=\"preview-empty\">Markdown 解析错误，请检查语法...</div>"
  /** What `getImageServerUrl()` returns. */
  const ImageServer: string := "http://localhost:3000"
  const LocalImageSrc: string := "src=\"/images/"
  const ImageTag: string := "<img "
  /** The style attribute every previewed image gets, declaration by
      declaration. */
  const StyleWidth: string := "style=\"max-width: 100%; "
  const StyleHeight: string := "height: auto; "
  const StyleRadius: string := "border-radius: 6px; "
  const StyleMargin: string := "margin: 1em 0; "
  const StyleShadow: string := "box-shadow: 0 2px 8px "
  const StyleColour: string := "rgba(0, 0, 0, 0.1);\" "
  const ImageStyle: string := StyleWidth + StyleHeight + StyleRadius + StyleMargin + StyleShadow + StyleColour
  const StyledImageTag: string := ImageTag + ImageStyle
  const ServedImageSrc: string := "src=\"" + ImageServer + "/images/"

  /** The rewritten source cannot overlap a local image source: its only
      `"` is followed by the server's `h`, and `/images/` ends it. */
  lemma ServedSrcApart()
    ensures NoOverlapFrom(LocalImageSrc, ServedImageSrc)
    ensures NoOverlapInto(ServedImageSrc, LocalImageSrc, 0)
  {
    ServedSrcStart();
    ImagesPathEnd();
    NoOverlapIntoAcross("src=\"", ImageServer, "/images/", LocalImageSrc, 4);
  }

  /** The rewritten source starts `sr`, which no proper suffix of a local
      image source does. */
  lemma ServedSrcStart()
    ensures NoOverlapFrom(LocalImageSrc, ServedImageSrc)
  {
    assert ServedImageSrc[0] == 's' && ServedImageSrc[1] == 'r';
    assert LocalImageSrc[11] == 's' && LocalImageSrc[12] == '/';
    forall k | 0 < k < |LocalImageSrc| ensures !StartsWith(ServedImageSrc, LocalImageSrc[k..]) {
      if k < 11 {
        assert LocalImageSrc[k..][0] == LocalImageSrc[k] != 's';
      } else if k == 11 {
        assert LocalImageSrc[k..][1] == '/';
      }
    }
  }

  /** No suffix of `/images/` five characters long or shorter starts a local
      image source. */
  lemma ImagesPathEnd()
    ensures forall j :: 0 <= j < |"/images/"| && |"/images/"| - 5 <= j ==> !StartsWith(LocalImageSrc, "/images/"[j..])
  {
    var z := "/images/";
    assert z[3] != 's' && z[4] != 's' && z[5] != 's' && z[7] != 's' && z[6] == 's' && z[7] != 'r';
    forall j | 0 <= j < |z| && |z| - 5 <= j ensures !StartsWith(LocalImageSrc, z[j..]) {
      assert z[j..][0] == z[j];
      if j == 6 {
        assert z[j..][1] == z[7];
      }
    }
  }

  lemma StyleWidthChars() ensures '/' !in StyleWidth && '<' !in StyleWidth { }
  lemma StyleHeightChars() ensures '/' !in StyleHeight && '<' !in StyleHeight { }
  lemma StyleRadiusChars() ensures '/' !in StyleRadius && '<' !in StyleRadius { }
  lemma StyleMarginChars() ensures '/' !in StyleMargin && '<' !in StyleMargin { }
  lemma StyleShadowChars() ensures '/' !in StyleShadow && '<' !in StyleShadow { }
  lemma StyleColourChars() ensures '/' !in StyleColour && '<' !in StyleColour && 's' !in StyleColour && |StyleColour| >= 5 { }

  /** Neither `/` nor `<` occurs in the style, and no `s` in its end. */
  lemma StyleChars()
    ensures '/' !in ImageStyle && '<' !in ImageStyle && 's' !in StyleColour && |StyleColour| >= 5
  {
    StyleWidthChars(); StyleHeightChars(); StyleRadiusChars(); StyleMarginChars(); StyleShadowChars(); StyleColourChars();
  }

  /** The styled tag starts with the image tag and cannot overlap it
      anywhere else: its only `<` is its first character. */
  lemma StyledTagSelfApart()
    ensures StartsWith(StyledImageTag, ImageTag)
    ensures NoOverlapFrom(ImageTag, StyledImageTag) && NoOverlapInto(StyledImageTag, ImageTag, 1)
  {
    StyleChars();
    assert ImageTag[0] == '<' && '<' !in ImageTag[1..];
    LeadApart(ImageTag, ImageStyle);
  }

  /** The styled tag cannot overlap a local image source: it has no `/`,
      and no `s` among its last five characters. */
  lemma StyledTagApart()
    ensures NoOverlapFrom(LocalImageSrc, StyledImageTag) && !StartsWith(StyledImageTag, LocalImageSrc)
    ensures NoOverlapInto(StyledImageTag, LocalImageSrc, 0)
  {
    StyleChars();
    assert StyledImageTag[0] == ImageTag[0] == '<' && '<' !in LocalImageSrc;
    NoOverlapFromByChar(LocalImageSrc, StyledImageTag);
    assert '/' !in ImageTag && LocalImageSrc[5] == '/' && LocalImageSrc[0] == 's';
    NoOverlapIntoByAbsent(ImageTag, StyleWidth + StyleHeight + StyleRadius + StyleMargin + StyleShadow, StyleColour, LocalImageSrc, 5);
  }

  /** The rewrites of the rendered HTML: image sources under `/images/` are
      pointed at the image server, and every image gets a style. Afterwards
      no local image source is left and every image tag carries the style;
      HTML with neither is shown as rendered. */
  function PostProcess(html: string): (r: string)
    ensures IndexOf(html, LocalImageSrc).None? && IndexOf(html, ImageTag).None? ==> r == html
    ensures forall j :: !OccursAt(r, LocalImageSrc, j)
    ensures forall j :: OccursAt(r, ImageTag, j) ==> OccursAt(r, StyledImageTag, j)
  {
    ReplaceAllAbsent(html, LocalImageSrc, ServedImageSrc);
    ReplaceAllAbsent(html, ImageTag, StyledImageTag);
    ServedSrcApart();
    StyledTagSelfApart();
    StyledTagApart();
    var served := ReplaceAll(html, LocalImageSrc, ServedImageSrc);
    ReplaceAllLeavesOut(html, LocalImageSrc, ServedImageSrc, LocalImageSrc);
    ReplaceAllLeavesOut(served, ImageTag, StyledImageTag, LocalImageSrc);
    ReplaceAllMarks(served, ImageTag, StyledImageTag);
    ReplaceAll(served, ImageTag, StyledImageTag)
  }

  /** `updatePreview()`: the placeholder for a blank editor; otherwise the
      trimmed text rendered (`render` stands for the markdown library, `None`
      for a failure), then rewritten. */
  function PreviewOf(text: string, render: string -> Option<string>): (r: string)
    ensures AllSpace(text) ==> r == EmptyPreview
    ensures !AllSpace(text) && render(Trim(text)).None? ==> r == ErrorPreview
  {
    TrimEmpty(text);
    var markdown := Trim(text);
    if markdown == "" then EmptyPreview
    else
      match render(markdown)
      case None => ErrorPreview
      case Some(html) => PostProcess(html)
  }

  /** Whitespace around the text never changes the preview. */
  lemma PreviewIgnoresOuterSpace(text: string, render: string -> Option<string>)
    ensures PreviewOf(Trim(text), render) == PreviewOf(text, render)
  {
    TrimIdempotent(text);
  }

  // ---------------------------------------------------------------------------
  // The image dialog and the submitted fields
  // ---------------------------------------------------------------------------

  /** The image dialog's snippet: nothing without a path; the alt text
      defaults to `图片`. Both inputs are trimmed. */
  function DialogSnippet(altInput: string, srcInput: string): (r: Option<string>)
    ensures r.None? <==> AllSpace(srcInput)
  {
    TrimEmpty(srcInput);
    var alt := OrElse(Trim(altInput), "图片");
    var src := Trim(srcInput);
    if src == "" then None else Some(ImageMarkdown(alt, src))
  }

  /** The dialog's snippet reads back as a non-empty alt text and the
      trimmed path. */
  lemma DialogSnippetReadsBack(altInput: string, srcInput: string)
    requires ']' !in altInput
    ensures DialogSnippet(altInput, srcInput).Some? ==>
      var alt := OrElse(Trim(altInput), "图片");
      && alt != ""
      && ParseBracketed("![", DialogSnippet(altInput, srcInput).value) == Some((alt, Trim(srcInput)))
  {
    var alt := OrElse(Trim(altInput), "图片");
    assert ']' !in alt by {
      if ']' in Trim(altInput) {
        TrimChars(altInput, ']');
      }
    }
    ImageMarkdownRoundTrip(alt, Trim(srcInput));
  }

  /** The tags as submitted: none for an empty field, else the trimmed
      comma-separated pieces without the empty ones. */
  function ParseTags(field: string): (r: seq<string>)
    ensures forall i :: 0 <= i < |r| ==> r[i] != "" && Trim(r[i]) == r[i] && ',' !in r[i]
  {
    var tags := CommaList(field);
    forall i | 0 <= i < |tags| ensures Trim(tags[i]) == tags[i] && ',' !in tags[i] {
      CommaListMembership(field, tags[i]);
    }
    tags
  }

  /** An empty field has no tags; a string is a tag iff a comma-separated
      piece of the non-empty field trims to it; and the tags joined with
      commas parse back to themselves. */
  lemma TagsNormalised(field: string)
    ensures field == "" ==> ParseTags(field) == []
    ensures forall t :: t in ParseTags(field) <==> field != "" && t != "" && t in TrimAll(Split(field, ','))
    ensures ParseTags(Join(ParseTags(field), ',')) == ParseTags(field)
  {
    var ts := ParseTags(field);
    forall t ensures t in ts <==> field != "" && t != "" && t in TrimAll(Split(field, ',')) {
      CommaListMembership(field, t);
    }
    CommaListRejoin(field);
  }

  /** The post as the form submits it (its date, converted to ISO form, is
      not part of this model). */
  datatype Submission = Submission(title: string, tags: seq<string>, categories: string, body: string)

  /** The submitted text fields carry no outer whitespace, and the tags are
      those of the tags field. */
  function SubmissionOf(title: string, tags: string, categories: string, body: string): (r: Submission)
    ensures Trim(r.title) == r.title && Trim(r.categories) == r.categories && Trim(r.body) == r.body
    ensures r.tags == ParseTags(tags)
    ensures AllSpace(body) <==> r.body == ""
  {
    TrimIdempotent(title);
    TrimIdempotent(categories);
    TrimIdempotent(body);
    TrimEmpty(body);
    Submission(Trim(title), ParseTags(tags), Trim(categories), Trim(body))
  }

  // ---------------------------------------------------------------------------
  // The page
  // ---------------------------------------------------------------------------

  /** Whether an upload inserts anything at all: an image type within 10 MiB. */
  predicate Accepted(u: Upload) {
    IsImageUpload(u) && u.file.size <= MaxUploadBytes
  }

  /** Whether some upload of the sequence is accepted, which is when the
      preview is refreshed. */
  function AnyAccepted(us: seq<Upload>): bool {
    us != [] && (AnyAccepted(us[..|us| - 1]) || Accepted(us[|us| - 1]))
  }

  lemma AnyAcceptedSnoc(us: seq<Upload>, i: nat)
    requires i < |us|
    ensures AnyAccepted(us[..i + 1]) == (AnyAccepted(us[..i]) || Accepted(us[i]))
  {
    assert us[..i + 1][..i] == us[..i];
  }

  /** `AnyAccepted` holds exactly when one of the uploads is accepted. */
  lemma {:induction false} AnyAcceptedExists(us: seq<Upload>)
    ensures AnyAccepted(us) <==> exists i :: 0 <= i < |us| && Accepted(us[i])
  {
    if us != [] {
      var init := us[..|us| - 1];
      AnyAcceptedExists(init);
      if AnyAccepted(init) {
        var i :| 0 <= i < |init| && Accepted(init[i]);
        assert us[i] == init[i];
      } else if !Accepted(us[|us| - 1]) {
        forall i | 0 <= i < |us| ensures !Accepted(us[i]) {
          if i < |init| {
            assert us[i] == init[i];
          }
        }
      }
    }
  }

  class NewPostEditor {
    var editor: Textarea
    /** The preview pane's HTML. */
    var preview: string
    /** The date field. */
    var dateValue: string
    /** The markdown library's rendering, `None` where it throws. */
    const render: string -> Option<string>

    ghost predicate Valid()
      reads this
    {
      editor.WellFormed()
    }

    /** Page load: the date field gets today's date, and the preview is
        drawn once from the initial text. */
    constructor (initial: Textarea, year: int, month0: nat, day: nat, renderer: string -> Option<string>)
      requires initial.WellFormed()
      ensures Valid()
      ensures editor == initial && render == renderer
      ensures preview == PreviewOf(initial.value, renderer)
      ensures dateValue == FormatDate(year, month0, day)
    {
      editor := initial;
      preview := "";
      render := renderer;
      dateValue := FormatDate(year, month0, day);
      new;
      UpdatePreview();
    }

    method UpdatePreview()
      requires Valid()
      modifies this
      ensures Valid()
      ensures preview == PreviewOf(editor.value, render)
      ensures editor == old(editor) && dateValue == old(dateValue)
    {
      var markdown := Trim(editor.value);
      if markdown == "" {
        preview := EmptyPreview;
        return;
      }
      match render(markdown)
      case None =>
        preview := ErrorPreview;
      case Some(html) =>
        preview := PostProcess(html);
    }

    /** The user edits the text; its `input` event refreshes the preview. */
    method Input(t: Textarea)
      requires Valid() && t.WellFormed()
      modifies this
      ensures Valid()
      ensures editor == t && preview == PreviewOf(t.value, render) && dateValue == old(dateValue)
    {
      editor := t;
      UpdatePreview();
    }

    method InsertTextAtCursor(text: string)
      requires Valid()
      modifies this
      ensures Valid()
      ensures editor == GuardedInsert(old(editor), text)
      ensures preview == old(preview) && dateValue == old(dateValue)
    {
      var start := editor.selStart;
      var end := editor.selEnd;
      var value := editor.value;
      var beforeCursor := value[..start];
      var afterCursor := value[end..];
      var textToInsert := LeadBreak(beforeCursor) + text + TrailBreak(afterCursor);
      var area := SetValue(editor, beforeCursor + textToInsert + afterCursor);
      var cursor := start + |textToInsert|;
      area := SetSelectionEnd(area, cursor);
      area := SetSelectionStart(area, cursor);
      editor := area;
    }

    /** The image dialog's insert button. */
    method InsertFromDialog(altInput: string, srcInput: string) returns (inserted: bool)
      requires Valid()
      modifies this
      ensures Valid()
      ensures inserted <==> DialogSnippet(altInput, srcInput).Some?
      ensures inserted ==>
        editor == GuardedInsert(old(editor), DialogSnippet(altInput, srcInput).value)
        && preview == PreviewOf(editor.value, render)
      ensures !inserted ==> editor == old(editor) && preview == old(preview)
      ensures dateValue == old(dateValue)
    {
      var alt := OrElse(Trim(altInput), "图片");
      var src := Trim(srcInput);
      if src == "" {
        return false;
      }
      InsertTextAtCursor(ImageMarkdown(alt, src));
      UpdatePreview();
      inserted := true;
    }

    /** `uploadImage(file)` up to the request: a file over 10 MiB is
        refused; otherwise the placeholder goes in at the cursor and the
        preview is refreshed. */
    method BeginUpload(file: FileInfo, stamp: nat) returns (started: bool)
      requires Valid()
      modifies this
      ensures Valid()
      ensures started <==> file.size <= MaxUploadBytes
      ensures started ==> editor == Announce(old(editor), stamp) && preview == PreviewOf(editor.value, render)
      ensures !started ==> editor == old(editor) && preview == old(preview)
      ensures dateValue == old(dateValue)
    {
      if file.size > MaxUploadBytes {
        return false;
      }
      InsertTextAtCursor(Placeholder(stamp));
      UpdatePreview();
      started := true;
    }

    /** `uploadImage(file)` once the server has answered: whatever the text
        has become meanwhile, the first occurrence of the placeholder is
        replaced and the preview is refreshed. */
    method FinishUpload(stamp: nat, answer: UploadAnswer)
      requires Valid()
      modifies this
      ensures Valid()
      ensures editor == Settle(old(editor), stamp, answer) && preview == PreviewOf(editor.value, render)
      ensures dateValue == old(dateValue)
    {
      ReplacePlaceholder(Placeholder(stamp), UploadedText(answer));
      UpdatePreview();
    }

    /** A whole upload with no edit while the request is out. */
    method UploadImage(u: Upload)
      requires Valid()
      modifies this
      ensures Valid()
      ensures editor == AfterUpload(old(editor), u)
      ensures u.file.size > MaxUploadBytes ==> editor == old(editor) && preview == old(preview)
      ensures u.file.size <= MaxUploadBytes ==> preview == PreviewOf(editor.value, render)
      ensures dateValue == old(dateValue)
    {
      var started := BeginUpload(u.file, u.stamp);
      if started {
        FinishUpload(u.stamp, u.answer);
      }
    }

    /** `editor.value = editor.value.replace(placeholder, replacement)`. */
    method ReplacePlaceholder(placeholder: string, replacement: string)
      requires Valid()
      modifies this
      ensures Valid()
      ensures editor == SetValue(old(editor), ReplaceFirst(old(editor).value, placeholder, replacement))
      ensures preview == old(preview) && dateValue == old(dateValue)
    {
      var editorContent := editor.value;
      editor := SetValue(editor, ReplaceFirst(editorContent, placeholder, replacement));
    }

    /** `handleFileSelect` and `handleDrop`: every image file is uploaded, in
        order, each upload finishing before the next starts; other files are
        skipped. */
    method UploadFiles(uploads: seq<Upload>)
      requires Valid()
      modifies this
      ensures Valid()
      ensures editor == UploadAll(old(editor), Filter(uploads, IsImageUpload))
      ensures !AnyAccepted(uploads) ==> preview == old(preview)
      ensures AnyAccepted(uploads) ==> preview == PreviewOf(editor.value, render)
      ensures dateValue == old(dateValue)
    {
      for i := 0 to |uploads|
        invariant Valid()
        invariant editor == UploadAll(old(editor), Filter(uploads[..i], IsImageUpload))
        invariant !AnyAccepted(uploads[..i]) ==> preview == old(preview)
        invariant AnyAccepted(uploads[..i]) ==> preview == PreviewOf(editor.value, render)
        invariant dateValue == old(dateValue)
      {
        var u := uploads[i];
        UploadAllFilteredSnoc(old(editor), uploads, i);
        AnyAcceptedSnoc(uploads, i);
        if StartsWith(u.file.mime, "image/") {
          UploadImage(u);
        }
      }
      assert uploads[..|uploads|] == uploads;
    }

    /** `handlePaste`: only the first clipboard item with an image type is
        uploaded. */
    method Paste(items: seq<Upload>)
      requires Valid()
      modifies this
      ensures Valid()
      ensures FirstImage(items).None? ==> editor == old(editor) && preview == old(preview)
      ensures FirstImage(items).Some? ==> editor == AfterUpload(old(editor), items[FirstImage(items).value])
      ensures FirstImage(items).Some? ==>
        if items[FirstImage(items).value].file.size <= MaxUploadBytes then preview == PreviewOf(editor.value, render)
        else preview == old(preview)
      ensures dateValue == old(dateValue)
    {
      var i := 0;
      while i < |items|
        invariant 0 <= i <= |items|
        invariant forall j :: 0 <= j < i ==> !IsImageUpload(items[j])
        invariant Valid() && editor == old(editor) && preview == old(preview) && dateValue == old(dateValue)
      {
        if StartsWith(items[i].file.mime, "image/") {
          FirstImageAt(items, i);
          UploadImage(items[i]);
          return;
        }
        i := i + 1;
      }
      FirstImageNone(items);
    }
  }
}
