/** The text handling of utils/pdf_generator.py: the font chosen for a
    piece of text, and how the transcript and notes builders cut their
    input into sections and classify each as a heading or a paragraph.
    The reportlab styling and drawing around them are not modelled. */
module PdfGenerator {
  import opened Wrappers
  import Text

  // ---------------------------------------------------------------------
  // get_font_for_text
  // ---------------------------------------------------------------------

  /** U+0600–U+06FF (Arabic) or U+0750–U+077F (Arabic Supplement). */
  predicate IsArabic(c: char) {
    ('\U{0600}' <= c <= '\U{06FF}') || ('\U{0750}' <= c <= '\U{077F}')
  }

  /** The loop over the text that returns at the first Arabic character. */
  function FindArabic(text: string): (r: Option<nat>)
    ensures r.Some? ==> r.value < |text| && IsArabic(text[r.value])
    ensures r.Some? ==> forall k :: 0 <= k < r.value ==> !IsArabic(text[k])
    ensures r.None? <==> forall k :: 0 <= k < |text| ==> !IsArabic(text[k])
  {
    if text == [] then None
    else if IsArabic(text[0]) then Some(0)
    else match FindArabic(text[1..])
      case None => None
      case Some(k) => Some(k + 1)
  }

  /** `get_font_for_text`; `fontsAvailable` is `UNICODE_FONTS_AVAILABLE`,
      fixed when the module loads. */
  function FontFor(text: string, fontsAvailable: bool): (font: string)
    ensures !fontsAvailable ==> font == "Helvetica"
    ensures fontsAvailable ==>
      (font == "NotoSansArabic" <==> exists k :: 0 <= k < |text| && IsArabic(text[k]))
    ensures fontsAvailable && font != "NotoSansArabic" ==> font == "NotoSans"
  {
    if !fontsAvailable then "Helvetica"
    else if FindArabic(text).Some? then "NotoSansArabic"
    else "NotoSans"
  }

  /** The font is always one of the three names, and the empty text gets
      the default one. */
  lemma FontNames(text: string, fontsAvailable: bool)
    ensures FontFor(text, fontsAvailable) in {"Helvetica", "NotoSansArabic", "NotoSans"}
    ensures fontsAvailable ==> FontFor("", fontsAvailable) == "NotoSans"
  {
  }

  /** Arabic anywhere in a longer text still selects the Arabic font:
      appending text never takes it away. */
  lemma {:induction false} ArabicFontPersists(a: string, b: string)
    requires FontFor(a, true) == "NotoSansArabic"
    ensures FontFor(a + b, true) == "NotoSansArabic"
  {
    var k :| 0 <= k < |a| && IsArabic(a[k]);
    assert (a + b)[k] == a[k];
  }

  // ---------------------------------------------------------------------
  // Sections
  // ---------------------------------------------------------------------

  /** `content.split('\n\n')`, each piece stripped, the empty ones
      skipped: every section is a stripped piece, every piece that is not
      blank gives a section, and `SectionsSplit` shows the order is kept. */
  function Sections(content: string): (r: seq<string>)
    ensures forall p <- r :: Tidy(p)
    ensures StrippedPieces(r, Text.SplitOn(content, "\n\n"))
    ensures KeepsNonBlank(r, Text.SplitOn(content, "\n\n"))
  {
    var pieces := Text.SplitOn(content, "\n\n");
    StrippedKept(pieces);
    NonEmpty(StripAll(pieces))
  }

  /** Every element of `r` is one of the pieces, stripped. */
  predicate StrippedPieces(r: seq<string>, pieces: seq<string>) {
    forall p <- r :: exists k :: 0 <= k < |pieces| && p == Text.Strip(pieces[k])
  }

  /** Every piece that is not blank appears in `r`, stripped. */
  predicate KeepsNonBlank(r: seq<string>, pieces: seq<string>) {
    forall k :: 0 <= k < |pieces| && Text.Strip(pieces[k]) != [] ==> Text.Strip(pieces[k]) in r
  }

  /** What filtering the stripped pieces keeps, for any pieces. */
  lemma StrippedKept(pieces: seq<string>)
    ensures var r := NonEmpty(StripAll(pieces));
      && (forall p <- r :: Tidy(p))
      && StrippedPieces(r, pieces) && KeepsNonBlank(r, pieces)
  {
    StrippedSound(pieces);
    StrippedComplete(pieces);
  }

  lemma StrippedSound(pieces: seq<string>)
    ensures var r := NonEmpty(StripAll(pieces));
      (forall p <- r :: Tidy(p)) && StrippedPieces(r, pieces)
  {
    var stripped := StripAll(pieces);
    var r := NonEmpty(stripped);
    forall p | p in r
      ensures Tidy(p) && exists k :: 0 <= k < |pieces| && p == Text.Strip(pieces[k])
    {
      var k :| 0 <= k < |stripped| && stripped[k] == p;
    }
  }

  lemma StrippedComplete(pieces: seq<string>)
    ensures KeepsNonBlank(NonEmpty(StripAll(pieces)), pieces)
  {
    var stripped := StripAll(pieces);
    forall k | 0 <= k < |pieces| && Text.Strip(pieces[k]) != []
      ensures Text.Strip(pieces[k]) in NonEmpty(stripped)
    {
      assert stripped[k] in stripped;
    }
  }

  /** The text up to the first blank line gives the first section, if it
      is not blank itself, and the rest follow in order. */
  lemma SectionsSplit(x: string, y: string)
    requires !Text.Contains(x, "\n\n") && (x == [] || x[|x| - 1] != '\n')
    ensures Sections(x + "\n\n" + y) == NonEmpty([Text.Strip(x)]) + Sections(y)
  {
    SplitAtFirstBlankLine(x, y);
    var pieces := Text.SplitOn(y, "\n\n");
    StripAllCons(x, pieces);
    NonEmptyAppend([Text.Strip(x)], StripAll(pieces));
  }

  /** Splitting at the first blank line gives `x` and then the pieces of `y`. */
  lemma SplitAtFirstBlankLine(x: string, y: string)
    requires !Text.Contains(x, "\n\n") && (x == [] || x[|x| - 1] != '\n')
    ensures Text.SplitOn(x + "\n\n" + y, "\n\n") == [x] + Text.SplitOn(y, "\n\n")
  {
    var s := x + "\n\n" + y;
    FirstBlankLine(x, y);
    Text.SplitOnStep(s, "\n\n", |x|);
    assert s[..|x|] == x && s[|x| + 2..] == y;
  }

  lemma StripAllCons(x: string, pieces: seq<string>)
    ensures StripAll([x] + pieces) == [Text.Strip(x)] + StripAll(pieces)
  {
    EachCons(x, pieces, Text.Strip);
  }

  /** The first blank line of `x + "\n\n" + y` is the one after `x`. */
  lemma FirstBlankLine(x: string, y: string)
    requires !Text.Contains(x, "\n\n") && (x == [] || x[|x| - 1] != '\n')
    ensures Text.Find(x + "\n\n" + y, "\n\n") == Some(|x|)
  {
    var s := x + "\n\n" + y;
    assert s[|x|..|x| + 2] == "\n\n";
    assert Text.OccursAt(s, "\n\n", |x|);
    forall j | 0 <= j < |x| ensures !Text.OccursAt(s, "\n\n", j) {
      if j + 2 <= |x| {
        assert s[j..j + 2] == x[j..j + 2];
        assert !Text.OccursAt(x, "\n\n", j);
      } else {
        assert s[j] == x[|x| - 1];
      }
    }
  }

  /** A section is never empty and starts and ends with a non-space. */
  predicate Tidy(p: string) {
    p != [] && !Text.IsSpace(p[0]) && !Text.IsSpace(p[|p| - 1])
  }

  /** Every piece stripped, in order. */
  function StripAll(parts: seq<string>): (r: seq<string>)
    ensures |r| == |parts|
    ensures forall k :: 0 <= k < |r| ==> r[k] == Text.Strip(parts[k])
  {
    Each(parts, Text.Strip)
  }

  /** `f` applied to every piece, in order. */
  function Each(parts: seq<string>, f: string -> string): (r: seq<string>)
    ensures |r| == |parts|
    ensures forall k :: 0 <= k < |r| ==> r[k] == f(parts[k])
  {
    seq(|parts|, k requires 0 <= k < |parts| => f(parts[k]))
  }

  lemma EachCons(x: string, parts: seq<string>, f: string -> string)
    ensures Each([x] + parts, f) == [f(x)] + Each(parts, f)
  {
    var a, b := Each([x] + parts, f), [f(x)] + Each(parts, f);
    forall k | 0 <= k < |a| ensures a[k] == b[k] {
      if k > 0 {
        assert ([x] + parts)[k] == parts[k - 1];
      }
    }
  }

  /** The pieces that are not empty, in order. */
  function NonEmpty(parts: seq<string>): (r: seq<string>)
    ensures |r| <= |parts|
    ensures forall p <- r :: p in parts && p != []
    ensures forall p <- parts :: p != [] ==> p in r
  {
    if parts == [] then []
    else if parts[0] == [] then NonEmpty(parts[1..])
    else [parts[0]] + NonEmpty(parts[1..])
  }

  /** Filtering a concatenation filters each part. */
  lemma {:induction false} NonEmptyAppend(a: seq<string>, b: seq<string>)
    ensures NonEmpty(a + b) == NonEmpty(a) + NonEmpty(b)
  {
    if a == [] {
      assert a + b == b;
    } else {
      assert (a + b)[0] == a[0];
      assert (a + b)[1..] == a[1..] + b;
      NonEmptyAppend(a[1..], b);
    }
  }

  /** Pieces none of which is empty are all kept, in their order. */
  lemma {:induction false} NonEmptyKeepsAll(parts: seq<string>)
    requires forall p <- parts :: p != []
    ensures NonEmpty(parts) == parts
  {
    if parts != [] {
      assert parts[0] in parts;
      assert forall p <- parts[1..] :: p in parts;
      NonEmptyKeepsAll(parts[1..]);
      assert [parts[0]] + parts[1..] == parts;
    }
  }

  /** The first line of a section, `section.split('\n')[0].strip()`. */
  function FirstLine(section: string): string {
    Text.Strip(Text.SplitOn(section, "\n")[0])
  }

  /** The body under a heading, when the section has more than one line:
      the other lines joined back with `'\n'`, each newline then replaced
      by `<br/>`. `BodyTextJoins` shows that is the other lines joined with
      `<br/>`. */
  function BodyText(section: string): Option<string> {
    var lines := Text.SplitOn(section, "\n");
    if |lines| > 1 then Some(Text.ReplaceChar(Text.Join(lines[1..], "\n"), '\n', "<br/>")) else None
  }

  lemma BodyTextJoins(section: string)
    ensures var lines := Text.SplitOn(section, "\n");
      BodyText(section) == if |lines| > 1 then Some(Text.Join(lines[1..], "<br/>")) else None
  {
    var lines := Text.SplitOn(section, "\n");
    if |lines| > 1 {
      Text.SplitOnPiecesLackSep(section, "\n");
      forall p | p in lines[1..] ensures '\n' !in p {
        Text.LacksChar(p, '\n');
      }
      Text.ReplaceJoin(lines[1..], '\n', "<br/>");
    }
  }

  /** One block per section, in order, whichever builder makes them. */
  function Blocks(ss: seq<string>, build: string -> Block): (bs: seq<Block>)
    ensures |bs| == |ss|
    ensures forall k :: 0 <= k < |bs| ==> bs[k] == build(ss[k])
  {
    seq(|ss|, k requires 0 <= k < |ss| => build(ss[k]))
  }

  /** What a builder makes of a section: a heading, with the rest of the
      section as body text when there is any, or one paragraph. The body and
      the paragraph text hold their line breaks as `<br/>`. */
  datatype Block = Heading(text: string, body: Option<string>) | Paragraph(text: string)

  // ---------------------------------------------------------------------
  // generate_transcript_pdf
  // ---------------------------------------------------------------------

  /** `first_line[:5]`. */
  function Prefix5(s: string): string {
    if |s| <= 5 then s else s[..5]
  }

  /** The transcript heading test: an upper-case line under 60 characters,
      or a line starting with a digit with a dot in its first five. */
  predicate IsTranscriptHeading(first: string) {
    (Text.IsUpper(first) && |first| < 60)
    || (first != [] && Text.IsDigitChar(first[0]) && Text.Contains(Prefix5(first), "."))
  }

  function TranscriptBlock(section: string): (b: Block)
    ensures b.Heading? <==> IsTranscriptHeading(FirstLine(section))
    ensures b.Heading? ==> b.text == FirstLine(section) && b.body == BodyText(section)
    ensures b.Paragraph? ==> b.text == Text.ReplaceChar(section, '\n', "<br/>")
  {
    var first := FirstLine(section);
    if IsTranscriptHeading(first) then Heading(first, BodyText(section))
    else Paragraph(Text.ReplaceChar(section, '\n', "<br/>"))
  }

  /** The blocks of the transcript body, one per section, in order. */
  function TranscriptBlocks(content: string): (bs: seq<Block>)
    ensures |bs| == |Sections(content)|
    ensures forall k :: 0 <= k < |bs| ==> bs[k] == TranscriptBlock(Sections(content)[k])
  {
    Blocks(Sections(content), TranscriptBlock)
  }

  /** A numbered line is a heading and a sentence in mixed case is not. */
  lemma TranscriptHeadingExamples()
    ensures IsTranscriptHeading("1. Introduction")
    ensures IsTranscriptHeading("SUMMARY")
    ensures !IsTranscriptHeading("Summary of the lecture")
  {
    assert Prefix5("1. Introduction") == "1. In";
    assert "1. In"[1..2] == ".";
    assert Text.OccursAt("1. In", ".", 1);
    assert Text.IsCased("SUMMARY"[0]);
    assert Text.IsLowerChar("Summary of the lecture"[1]);
    assert !Text.IsDigitChar("Summary of the lecture"[0]);
  }

  // ---------------------------------------------------------------------
  // generate_notes_pdf
  // ---------------------------------------------------------------------

  /** The markdown heading level of a first line: `'# '`, `'## '` or
      `'### '`, tried in that order. */
  function NotesLevel(first: string): (level: Option<nat>)
    ensures level.Some? ==> 1 <= level.value <= 3 && level.value < |first|
    ensures level.Some? ==> first[level.value] == ' ' && forall k :: 0 <= k < level.value ==> first[k] == '#'
    ensures level.None? ==> !Text.StartsWith(first, "# ") && !Text.StartsWith(first, "## ")
                            && !Text.StartsWith(first, "### ")
  {
    if Text.StartsWith(first, "# ") then Some(1)
    else if Text.StartsWith(first, "## ") then Some(2)
    else if Text.StartsWith(first, "### ") then Some(3)
    else None
  }

  /** At most one of the three prefixes matches a line, so the order in
      which they are tried does not matter. */
  lemma NotesPrefixesExclusive(first: string)
    ensures !(Text.StartsWith(first, "# ") && Text.StartsWith(first, "## "))
    ensures !(Text.StartsWith(first, "# ") && Text.StartsWith(first, "### "))
    ensures !(Text.StartsWith(first, "## ") && Text.StartsWith(first, "### "))
  {
    if Text.StartsWith(first, "## ") {
      assert first[1] == '#';
    }
    if Text.StartsWith(first, "### ") {
      assert first[1] == '#' && first[2] == '#';
    }
  }

  /** The bullet that replaces a remaining asterisk. The source file holds
      the UTF-8 bytes of U+2022 read back as Latin-1/Windows-1252, so the
      Python literal is the three characters U+00E2 U+20AC U+00A2. */
  const Bullet: string := ['\U{E2}', '\U{20AC}', '\U{A2}']

  /** Where the lazy `(.+?)` of `\*\*(.+?)\*\*` ends in `t`, the text right
      after an opening `**`: the first `**` after at least one character,
      with no newline before it (`.` does not match a newline). */
  function CloseFrom(t: string, k: nat): (r: Option<nat>)
    requires 1 <= k
    ensures r.Some? ==> k <= r.value && r.value + 2 <= |t| && t[r.value..r.value + 2] == "**"
    ensures r.Some? ==> forall j :: 0 <= j < r.value ==> t[j] != '\n' || j < k - 1
    decreases |t| - k
  {
    if k + 2 > |t| || t[k - 1] == '\n' then None
    else if t[k..k + 2] == "**" then Some(k)
    else CloseFrom(t, k + 1)
  }

  /** `re.sub(r'\*\*(.+?)\*\*', r'<b>\1</b>', s)`: scanning from the left,
      each match is replaced and the scan resumes after it. */
  function Bold(s: string): string
    decreases |s|
  {
    if |s| < 2 then s
    else if s[..2] == "**" && CloseFrom(s[2..], 1).Some? then
      var k := CloseFrom(s[2..], 1).value;
      "<b>" + s[2..2 + k] + "</b>" + Bold(s[2 + k + 2..])
    else [s[0]] + Bold(s[1..])
  }

  /** No two asterisks stand side by side, so no bold marker opens. */
  predicate NoDoubleStar(s: string) {
    forall j :: 0 <= j < |s| - 1 ==> !(s[j] == '*' && s[j + 1] == '*')
  }

  /** Text in which no `**` opens goes through the bold rewrite untouched. */
  lemma {:induction false} BoldLeavesUnpaired(s: string)
    requires NoDoubleStar(s)
    ensures Bold(s) == s
    decreases |s|
  {
    if |s| >= 2 {
      assert s[..2][0] == s[0] && s[..2][1] == s[1];
      assert NoDoubleStar(s[1..]) by {
        assert forall j :: 0 <= j < |s| - 1 ==> s[1..][j] == s[j + 1];
      }
      BoldLeavesUnpaired(s[1..]);
      assert [s[0]] + s[1..] == s;
    }
  }

  /** A run of plain text between two `**` markers becomes bold. */
  lemma {:induction false} BoldWraps(x: string)
    requires x != [] && '*' !in x && '\n' !in x
    ensures Bold("**" + x + "**") == "<b>" + x + "</b>"
  {
    var s := "**" + x + "**";
    var t := s[2..];
    assert t == x + "**";
    CloseAtEnd(x, 1);
    assert CloseFrom(t, 1) == Some(|x|);
    assert s[2..2 + |x|] == x;
    assert s[2 + |x| + 2..] == [];
  }

  lemma {:induction false} CloseAtEnd(x: string, k: nat)
    requires 1 <= k <= |x| && '*' !in x && '\n' !in x
    ensures CloseFrom(x + "**", k) == Some(|x|)
    decreases |x| - k
  {
    var t := x + "**";
    assert t[k - 1] == x[k - 1];
    if k < |x| {
      assert t[k] == x[k];
      CloseAtEnd(x, k + 1);
    } else {
      assert t[k..k + 2] == "**";
    }
  }

  /** The paragraph text of a notes section: bold markers converted,
      every other asterisk turned into the bullet, newlines into `<br/>`. */
  function NotesParagraph(section: string): (text: string)
    ensures '*' !in text
  {
    var content := Text.ReplaceChar(Bold(section), '*', Bullet);
    Text.ReplaceCharKeepsAbsent(content, '\n', "<br/>", '*');
    Text.ReplaceChar(content, '\n', "<br/>")
  }

  /** A notes section: a markdown heading keeps the text after its marker
      and the rest of the section as body; anything else becomes one
      paragraph in which no asterisk is left. */
  function NoteBlock(section: string): (b: Block)
    ensures var first := FirstLine(section);
      NotesLevel(first).Some? ==> b == Heading(first[NotesLevel(first).value + 1..], BodyText(section))
    ensures NotesLevel(FirstLine(section)).None? ==> b.Paragraph? && '*' !in b.text
  {
    var first := FirstLine(section);
    match NotesLevel(first)
    case Some(level) => Heading(first[level + 1..], BodyText(section))
    case None => Paragraph(NotesParagraph(section))
  }

  /** A notes paragraph without a `**` pair: each asterisk becomes the
      bullet, then each newline `<br/>`. */
  lemma NotesWithoutPairs(section: string)
    requires NotesLevel(FirstLine(section)).None? && NoDoubleStar(section)
    ensures NoteBlock(section)
            == Paragraph(Text.ReplaceChar(Text.ReplaceChar(section, '*', Bullet), '\n', "<br/>"))
  {
    BoldLeavesUnpaired(section);
  }

  /** A notes paragraph without any asterisk only has its newlines
      turned into `<br/>`. */
  lemma NotesPlain(section: string)
    requires NotesLevel(FirstLine(section)).None? && '*' !in section
    ensures NoteBlock(section) == Paragraph(Text.ReplaceChar(section, '\n', "<br/>"))
  {
    NotesWithoutPairs(section);
  }

  /** An asterisk opening a line of text without another asterisk or a
      newline becomes the bullet. */
  lemma BulletItem(item: string)
    requires '*' !in item && '\n' !in item
    ensures NotesParagraph("*" + item) == Bullet + item
  {
    var s := "*" + item;
    assert NoDoubleStar(s) by {
      assert forall j :: 1 <= j < |s| ==> s[j] == item[j - 1];
    }
    BoldLeavesUnpaired(s);
    Text.ReplaceCharAppend("*", item, '*', Bullet);
    assert Text.ReplaceChar("*", '*', Bullet) == Bullet + Text.ReplaceChar([], '*', Bullet);
    Text.ReplaceCharAppend(Bullet, item, '\n', "<br/>");
  }

  /** The blocks of the notes body, one per section, in order. */
  function NoteBlocks(content: string): (bs: seq<Block>)
    ensures |bs| == |Sections(content)|
    ensures forall k :: 0 <= k < |bs| ==> bs[k] == NoteBlock(Sections(content)[k])
  {
    Blocks(Sections(content), NoteBlock)
  }

  /** The three heading markers strip two, three and four characters,
      and a marker without its space is no heading. */
  lemma NotesHeadingExamples()
    ensures NotesLevel("# Title") == Some(1) && "# Title"[2..] == "Title"
    ensures NotesLevel("## Part") == Some(2) && "## Part"[3..] == "Part"
    ensures NotesLevel("### Step") == Some(3) && "### Step"[4..] == "Step"
    ensures NotesLevel("#Title") == None
  {
    assert "## Part"[..2][1] == '#';
    assert "### Step"[..2][1] == '#' && "### Step"[..3][2] == '#';
    assert "#Title"[..2][1] == 'T';
  }
}
