/**
 * The results page's two renderings of the model's narrative report: the
 * HTML string put into the printable report (`formatAnalysisForPDF`) and the
 * on-screen cards of `formatAnalysisContent`, whose styling is modelled as
 * values (an icon and a colour family per section, a kind per line) instead
 * of JSX.
 *
 * Both split the report on `##`, drop pieces that are blank after `trim`,
 * and take a section's title from its first line and its body from the rest.
 */
module ReportFormat {
  import opened Wrappers
  import opened JsText

  // ---------------------------------------------------------------------------
  // Sections, titles and bodies (shared by both renderings)
  // ---------------------------------------------------------------------------

  /** `!s.trim()`. */
  predicate IsBlank(s: string) {
    Trim(s) == []
  }

  /** `pieces.filter((section) => section.trim())`. */
  function NonBlank(pieces: seq<string>): (r: seq<string>)
    decreases |pieces|
    ensures |r| <= |pieces|
    ensures forall k :: 0 <= k < |r| ==> !IsBlank(r[k])
    ensures forall x :: x in r <==> x in pieces && !IsBlank(x)
  {
    if |pieces| == 0 then []
    else
      var rest := NonBlank(pieces[1..]);
      assert forall x :: x in pieces <==> x == pieces[0] || x in pieces[1..];
      if IsBlank(pieces[0]) then rest else [pieces[0]] + rest
  }

  /** The filter works piece by piece: it keeps the order and drops only blank pieces. */
  lemma {:induction false} NonBlankAppend(a: seq<string>, b: seq<string>)
    ensures NonBlank(a + b) == NonBlank(a) + NonBlank(b)
    decreases |a|
  {
    if a != [] {
      assert (a + b)[1..] == a[1..] + b;
      NonBlankAppend(a[1..], b);
    } else {
      assert a + b == b;
    }
  }

  /** One piece is kept exactly when it is not blank. */
  lemma NonBlankSingle(x: string)
    ensures NonBlank([x]) == if IsBlank(x) then [] else [x]
  {
    assert [x][1..] == [];
  }

  /**
   * The sections of a report: the `##`-separated pieces that are not blank,
   * in input order. None of them contains `##`, and no non-blank piece is
   * lost; `SectionsAround` and `SectionsWithoutMark` pin the order.
   */
  function Sections(content: string): (r: seq<string>)
    ensures forall k :: 0 <= k < |r| ==> !IsBlank(r[k]) && !Contains(r[k], "##")
    ensures forall x :: x in r <==> x in SplitOn(content, "##") && !IsBlank(x)
  {
    var pieces := SplitOn(content, "##");
    var r := NonBlank(pieces);
    assert forall k :: 0 <= k < |r| ==> r[k] in pieces;
    r
  }

  /** What one `##`-free piece contributes to the sections: itself, unless it is blank. */
  function Kept(a: string): seq<string> {
    if IsBlank(a) then [] else [a]
  }

  /**
   * When the first `##` of the report follows `a`, the report's sections
   * are `a` (unless it is blank) followed by the sections of the rest.
   */
  lemma SectionsAround(a: string, b: string)
    requires forall i: nat :: i < |a| ==> !StartsAt(a + "##" + b, i, "##")
    ensures Sections(a + "##" + b) == Kept(a) + Sections(b)
  {
    SplitAround(a, "##", b);
    NonBlankAppend([a], SplitOn(b, "##"));
    NonBlankSingle(a);
  }

  /** A report without `##` is one section, unless it is blank. */
  lemma SectionsWithoutMark(a: string)
    requires !Contains(a, "##")
    ensures Sections(a) == Kept(a)
  {
    SplitWithoutSep(a, "##");
    NonBlankSingle(a);
  }

  /** `section.trim().split("\n")`. */
  function SectionLines(piece: string): (lines: seq<string>)
    ensures |lines| >= 1
  {
    SplitOn(Trim(piece), "\n")
  }

  /** `lines[0].trim()`: one line with no whitespace at either end. */
  function SectionTitle(piece: string): (title: string)
    ensures forall k :: 0 <= k < |title| ==> title[k] != '\n'
    ensures title != [] ==> !IsSpace(title[0]) && !IsSpace(title[|title| - 1])
  {
    var first := SectionLines(piece)[0];
    NoCharWhereAbsent(first, '\n');
    var title := Trim(first);
    assert forall k :: 0 <= k < |title| ==> title[k] == first[TrimStart(first) + k];
    title
  }

  /** `lines.slice(1).join("\n").trim()`: no whitespace at either end. */
  function SectionBody(piece: string): (body: string)
    ensures |body| <= |Join(SectionLines(piece)[1..], "\n")|
    ensures body != [] ==> !IsSpace(body[0]) && !IsSpace(body[|body| - 1])
  {
    Trim(Join(SectionLines(piece)[1..], "\n"))
  }

  /**
   * The title of a non-blank section is a non-empty single line with no
   * surrounding whitespace, taken from the start of the trimmed section.
   */
  lemma TitleIsFirstLine(piece: string)
    requires !IsBlank(piece)
    ensures var title := SectionTitle(piece);
            && title != []
            && !IsSpace(title[0]) && !IsSpace(title[|title| - 1])
            && (forall k :: 0 <= k < |title| ==> title[k] != '\n')
  {
    var t := Trim(piece);
    var first := SectionLines(piece)[0];
    SplitFirstPieceNonEmpty(t, '\n');
    assert first[0] == t[0];
  }

  /**
   * The trimmed section is its first line, then (when there are more lines)
   * a newline and the text the body is trimmed from.
   */
  lemma TitleAndBodySplitSection(piece: string)
    ensures var lines := SectionLines(piece);
            && Trim(piece) == (if |lines| == 1 then lines[0] else lines[0] + "\n" + Join(lines[1..], "\n"))
            && SectionTitle(piece) == Trim(lines[0])
            && SectionBody(piece) == Trim(Join(lines[1..], "\n"))
  {
    JoinSplit(Trim(piece), "\n");
  }

  // ---------------------------------------------------------------------------
  // Line shapes (shared by both renderings)
  // ---------------------------------------------------------------------------

  /** `t.startsWith("[") && t.endsWith("]")`. */
  predicate IsBracketed(t: string) {
    |t| > 0 && t[0] == '[' && t[|t| - 1] == ']'
  }

  /** `t.startsWith("*") || t.startsWith("-")`. */
  predicate IsBulletLine(t: string) {
    |t| > 0 && (t[0] == '*' || t[0] == '-')
  }

  /** The end of the run of ASCII digits (`\d`) that starts at `i`. */
  function DigitRun(t: string, i: nat): (n: nat)
    requires i <= |t|
    decreases |t| - i
    ensures i <= n <= |t|
    ensures forall k :: i <= k < n ==> IsDigit(t[k])
    ensures n < |t| ==> !IsDigit(t[n])
  {
    if i < |t| && IsDigit(t[i]) then DigitRun(t, i + 1) else i
  }

  /** `/^\d+\./.test(t)`. */
  predicate IsNumbered(t: string) {
    var n := DigitRun(t, 0);
    0 < n < |t| && t[n] == '.'
  }

  /** What follows the `^\d+\.` prefix of a numbered line. */
  function AfterNumber(t: string): (r: string)
    requires IsNumbered(t)
    ensures t == t[..DigitRun(t, 0)] + "." + r
  {
    t[DigitRun(t, 0) + 1..]
  }

  // ---------------------------------------------------------------------------
  // The printable report (formatAnalysisForPDF)
  // ---------------------------------------------------------------------------

  datatype PdfLine = BlankLine | Callout(text: string) | ListItem(text: string) | Paragraph(text: string)

  /**
   * The kind of one body line of the printable report, by priority: blank,
   * bracketed callout, `*`/`-` bullet, `\d+.` numbered item, paragraph.
   */
  function ClassifyPdfLine(line: string): (r: PdfLine)
    ensures r.BlankLine? <==> IsBlank(line)
    ensures r.Callout? <==> !IsBlank(line) && IsBracketed(Trim(line))
    ensures r.ListItem? <==> !IsBlank(line) && !IsBracketed(Trim(line))
                             && (IsBulletLine(Trim(line)) || IsNumbered(Trim(line)))
    ensures r.Callout? ==> var t := Trim(line); |t| >= 2 && r.text == t[1..|t| - 1]
    ensures r.ListItem? && IsBulletLine(Trim(line)) ==> r.text == Trim(Trim(line)[1..])
    ensures r.ListItem? && !IsBulletLine(Trim(line)) ==> r.text == Trim(AfterNumber(Trim(line)))
    ensures r.Paragraph? ==> r.text == Trim(line)
  {
    var t := Trim(line);
    if t == [] then BlankLine
    else if IsBracketed(t) then Callout(t[1..|t| - 1])
    else if IsBulletLine(t) then ListItem(Trim(t[1..]))
    else if IsNumbered(t) then ListItem(Trim(AfterNumber(t)))
    else Paragraph(t)
  }

  const CalloutOpen: string :=
    "<div style=\"background: #f1f5f9; padding: 12px; border-radius: 6px; margin: 10px 0; font-style: italic; border-left: 3px solid #64748b;\"><p>"
  const CalloutClose: string := "</p></div>"
  const ItemOpen: string := "<li>"
  const ItemClose: string := "</li>"
  const ParagraphOpen: string := "<p>"
  const ParagraphClose: string := "</p>"

  /** The HTML of one body line: nothing for a blank line, else its text inside the kind's tags. */
  function PdfLineHtml(l: PdfLine): (html: string)
    ensures html == "" <==> l.BlankLine?
    ensures l.Callout? ==> CalloutOpen <= html && html[|CalloutOpen|..] == l.text + CalloutClose
    ensures l.ListItem? ==> ItemOpen <= html && html[|ItemOpen|..] == l.text + ItemClose
    ensures l.Paragraph? ==> ParagraphOpen <= html && html[|ParagraphOpen|..] == l.text + ParagraphClose
  {
    match l
    case BlankLine => ""
    case Callout(t) => CalloutOpen + t + CalloutClose
    case ListItem(t) => ItemOpen + t + ItemClose
    case Paragraph(t) => ParagraphOpen + t + ParagraphClose
  }

  /** The HTML of the lines of a section, one after the other: empty exactly when every line is blank. */
  function LinesHtml(lines: seq<PdfLine>): (html: string)
    ensures html == "" <==> forall k :: 0 <= k < |lines| ==> lines[k].BlankLine?
  {
    MapJoin(PdfLineHtml, lines)
  }

  /**
   * The shared bold-then-italic substitution: `**x**` becomes `strong` around
   * `x`, then `*x*` becomes `em` around `x`, each pair on one line.
   */
  function Emphasis(text: string, strong: string, em: string): string {
    ReplacePairs(ReplacePairs(text, "**", "**", strong, "</strong>"), "*", "*", em, "</em>")
  }

  /** No character of `s` is an asterisk. */
  predicate NoAsterisk(s: string) {
    forall k :: 0 <= k < |s| ==> s[k] != '*'
  }

  lemma NoAsteriskConcat(a: string, b: string)
    requires NoAsterisk(a) && NoAsterisk(b)
    ensures NoAsterisk(a + b)
  {
  }

  /** One line of text. */
  predicate OneLine(s: string) {
    forall k :: 0 <= k < |s| ==> !IsLineTerminator(s[k])
  }

  /** A text without an asterisk passes both substitutions unchanged. */
  lemma EmphasisWithoutAsterisk(text: string, strong: string, em: string)
    requires NoAsterisk(text)
    ensures Emphasis(text, strong, em) == text
  {
    forall j: nat | 0 <= j < |text| ensures !StartsAt(text, j, "**") && !StartsAt(text, j, "*") {
      MismatchAt(text, j, "**", 0);
      MismatchAt(text, j, "*", 0);
    }
    ReplacePairsWithoutOpen(text, "**", "**", strong, "</strong>", 0);
    ReplacePairsWithoutOpen(text, "*", "*", em, "</em>", 0);
    assert text[0..] == text;
  }

  /** `**w**` on one line, with no asterisk in `w`, becomes `w` in the bold tags. */
  lemma EmphasisBold(w: string, strong: string, em: string)
    requires NoAsterisk(w) && OneLine(w) && NoAsterisk(strong)
    ensures Emphasis("**" + w + "**", strong, em) == strong + w + "</strong>"
  {
    var s := "**" + w + "**";
    forall m | 2 <= m < 2 + |w| ensures !StartsAt(s, m, "**") {
      assert s[m] == w[m - 2];
      MismatchAt(s, m, "**", 0);
    }
    WrappedPairReplaced("**", w, "**", strong, "</strong>");
    assert NoAsterisk(strong + w + "</strong>");
    EmphasisStarFree(strong + w + "</strong>", em);
  }

  /** `*w*` on one line, with `w` non-empty and free of asterisks, becomes `w` in the italic tags. */
  lemma EmphasisItalic(w: string, strong: string, em: string)
    requires w != [] && NoAsterisk(w) && OneLine(w)
    ensures Emphasis("*" + w + "*", strong, em) == em + w + "</em>"
  {
    var s := "*" + w + "*";
    forall j: nat | 0 <= j < |s| ensures !StartsAt(s, j, "**") {
      if j == 0 {
        assert s[1] == w[0];
        MismatchAt(s, 0, "**", 1);
      } else if j < |s| - 1 {
        assert s[j] == w[j - 1];
        MismatchAt(s, j, "**", 0);
      }
    }
    ReplacePairsWithoutOpen(s, "**", "**", strong, "</strong>", 0);
    assert s[0..] == s;
    forall m | 1 <= m < 1 + |w| ensures !StartsAt(s, m, "*") {
      assert s[m] == w[m - 1];
      MismatchAt(s, m, "*", 0);
    }
    WrappedPairReplaced("*", w, "*", em, "</em>");
  }

  /** The italic pass leaves a text without an asterisk as it is. */
  lemma EmphasisStarFree(t: string, em: string)
    requires NoAsterisk(t)
    ensures ReplacePairs(t, "*", "*", em, "</em>") == t
  {
    forall j: nat | 0 <= j < |t| ensures !StartsAt(t, j, "*") {
      MismatchAt(t, j, "*", 0);
    }
    ReplacePairsWithoutOpen(t, "*", "*", em, "</em>", 0);
    assert t[0..] == t;
  }

  const PdfStrong: string := "<strong>"
  const PdfEm: string := "<em>"

  /** The bold, then italic, substitution the printable report runs on a whole body. */
  function PdfInline(body: string): string {
    Emphasis(body, PdfStrong, PdfEm)
  }

  /** A body without an asterisk is printed as it is. */
  lemma PdfInlineWithoutAsterisk(body: string)
    requires NoAsterisk(body)
    ensures PdfInline(body) == body
  {
    EmphasisWithoutAsterisk(body, PdfStrong, PdfEm);
  }

  /** `**w**` is printed as `<strong>w</strong>`. */
  lemma PdfBoldBecomesStrong(w: string)
    requires NoAsterisk(w) && OneLine(w)
    ensures PdfInline("**" + w + "**") == "<strong>" + w + "</strong>"
  {
    EmphasisBold(w, PdfStrong, PdfEm);
  }

  /** `*w*` is printed as `<em>w</em>`. */
  lemma PdfItalicBecomesEm(w: string)
    requires w != [] && NoAsterisk(w) && OneLine(w)
    ensures PdfInline("*" + w + "*") == "<em>" + w + "</em>"
  {
    EmphasisItalic(w, PdfStrong, PdfEm);
  }

  datatype PdfSection = PdfSection(title: string, lines: seq<PdfLine>)

  /** One section of the printable report: its lines are those of the substituted body, in order. */
  function PdfSectionOf(piece: string): (r: PdfSection)
    ensures r.title == SectionTitle(piece)
    ensures var body := SplitOn(PdfInline(SectionBody(piece)), "\n");
            |r.lines| == |body| && forall k :: 0 <= k < |body| ==> r.lines[k] == ClassifyPdfLine(body[k])
  {
    var body := SplitOn(PdfInline(SectionBody(piece)), "\n");
    PdfSection(SectionTitle(piece), seq(|body|, k requires 0 <= k < |body| => ClassifyPdfLine(body[k])))
  }

  /**
   * The sections of the printable report: one per non-blank `##` piece, in
   * input order, each with a non-empty title.
   */
  function PdfSections(content: string): (r: seq<PdfSection>)
    ensures |r| == |Sections(content)|
    ensures forall k :: 0 <= k < |r| ==> r[k] == PdfSectionOf(Sections(content)[k])
    ensures forall k :: 0 <= k < |r| ==> r[k].title != []
  {
    var pieces := Sections(content);
    forall k | 0 <= k < |pieces| ensures SectionTitle(pieces[k]) != [] {
      TitleIsFirstLine(pieces[k]);
    }
    MapSeq(PdfSectionOf, pieces)
  }

  const SectionOpen: string := "\n        <div class=\"analysis-section\">\n          <h3>"
  const HeadingClose: string := "</h3>"
  const TitleClose: string := HeadingClose + "\n          <div>"
  const SectionClose: string := "</div>\n        </div>\n      "

  /** The HTML of one section. */
  function SectionHtml(sec: PdfSection): string {
    SectionOpen + sec.title + TitleClose + LinesHtml(sec.lines) + SectionClose
  }

  /**
   * How a section is laid out: the title inside `<h3>`, then the HTML of its
   * lines in order inside a `<div>`, in the `analysis-section` block.
   */
  lemma SectionHtmlLayout(sec: PdfSection)
    ensures var html := SectionHtml(sec);
            && SectionOpen + sec.title + TitleClose <= html
            && |html| == |SectionOpen| + |sec.title| + |TitleClose| + |LinesHtml(sec.lines)| + |SectionClose|
            && html[|SectionOpen| + |sec.title| + |TitleClose|..|html| - |SectionClose|] == LinesHtml(sec.lines)
            && html[|html| - |SectionClose|..] == SectionClose
  {
    var html := SectionHtml(sec);
    var p := SectionOpen + sec.title + TitleClose;
    assert html == p + (LinesHtml(sec.lines) + SectionClose);
  }

  /** A title without `<` is read back as the text between the `<h3>` and the first `</h3>`. */
  lemma TitleReadBack(sec: PdfSection)
    requires forall k :: 0 <= k < |sec.title| ==> sec.title[k] != '<'
    ensures FindFrom(SectionHtml(sec), HeadingClose, |SectionOpen|) == Some(|SectionOpen| + |sec.title|)
  {
    SectionHtmlLayout(sec);
    assert SectionOpen + sec.title + HeadingClose <= SectionOpen + sec.title + TitleClose;
    FirstOccurrenceAfter(SectionHtml(sec), SectionOpen, sec.title, HeadingClose);
  }

  /** The HTML of `secs`, one section after the other. */
  function SectionsHtml(secs: seq<PdfSection>): (html: string)
    ensures html == "" <==> secs == []
  {
    var html := MapJoin(SectionHtml, secs);
    assert secs != [] ==> SectionHtml(secs[0]) != [];
    html
  }

  /**
   * `formatAnalysisForPDF`: the sections' HTML, concatenated in order. It is
   * empty exactly when the report has no non-blank section, and otherwise
   * opens with the first section.
   */
  function FormatAnalysisForPdf(content: string): (html: string)
    ensures html == "" <==> Sections(content) == []
    ensures Sections(content) != [] ==> SectionHtml(PdfSectionOf(Sections(content)[0])) <= html
  {
    SectionsHtml(PdfSections(content))
  }

  /**
   * The printable report of `a ## b`, where that `##` is the first one, is
   * the section of `a` (unless `a` is blank) followed by the report of `b`.
   */
  lemma PdfReportAround(a: string, b: string)
    requires forall i: nat :: i < |a| ==> !StartsAt(a + "##" + b, i, "##")
    ensures FormatAnalysisForPdf(a + "##" + b)
            == (if IsBlank(a) then "" else SectionHtml(PdfSectionOf(a))) + FormatAnalysisForPdf(b)
  {
    PdfSectionsAround(a, b);
    MapJoinAppend(SectionHtml, if IsBlank(a) then [] else [PdfSectionOf(a)], PdfSections(b));
  }

  lemma PdfSectionsAround(a: string, b: string)
    requires forall i: nat :: i < |a| ==> !StartsAt(a + "##" + b, i, "##")
    ensures PdfSections(a + "##" + b) == (if IsBlank(a) then [] else [PdfSectionOf(a)]) + PdfSections(b)
  {
    SectionsAround(a, b);
    MapSeqAppend(PdfSectionOf, Kept(a), Sections(b));
  }

  /** The printable report of a text without `##` is its one section, unless it is blank. */
  lemma PdfReportWithoutMark(a: string)
    requires !Contains(a, "##")
    ensures FormatAnalysisForPdf(a) == if IsBlank(a) then "" else SectionHtml(PdfSectionOf(a))
  {
    SectionsWithoutMark(a);
  }

  /** A report with no non-blank `##` piece renders as the empty string. */
  lemma BlankReportRendersNothing(content: string)
    requires IsBlank(content)
    ensures FormatAnalysisForPdf(content) == ""
  {
    SplitOfBlankIsBlank(content, "##");
  }

  /** Every piece of a blank string is blank. */
  lemma SplitOfBlankIsBlank(s: string, sep: string)
    requires |sep| > 0 && IsBlank(s)
    ensures forall k :: 0 <= k < |SplitOn(s, sep)| ==> IsBlank(SplitOn(s, sep)[k])
  {
    SplitOfSpacesIsSpaces(s, sep);
    forall k | 0 <= k < |SplitOn(s, sep)| ensures IsBlank(SplitOn(s, sep)[k]) {
      assert AllSpace(SplitOn(s, sep)[k]);
    }
  }

  predicate AllSpace(s: string) {
    forall k :: 0 <= k < |s| ==> IsSpace(s[k])
  }

  lemma {:induction false} SplitOfSpacesIsSpaces(s: string, sep: string)
    requires |sep| > 0 && AllSpace(s)
    ensures forall k :: 0 <= k < |SplitOn(s, sep)| ==> AllSpace(SplitOn(s, sep)[k])
    decreases |s|
  {
    match FindFrom(s, sep, 0)
    case None =>
    case Some(j) =>
      var rest := s[j + |sep|..];
      SliceOfSpaces(s, 0, j);
      SliceOfSpaces(s, j + |sep|, |s|);
      assert s[j + |sep|..|s|] == rest;
      SplitOfSpacesIsSpaces(rest, sep);
      var tail := SplitOn(rest, sep);
      var parts := SplitOn(s, sep);
      assert parts == [s[0..j]] + tail;
      forall k | 0 <= k < |parts| ensures AllSpace(parts[k]) {
        if k > 0 {
          assert parts[k] == tail[k - 1];
        }
      }
  }

  lemma SliceOfSpaces(s: string, i: nat, j: nat)
    requires i <= j <= |s| && AllSpace(s)
    ensures AllSpace(s[i..j])
  {
    assert forall m :: 0 <= m < j - i ==> s[i..j][m] == s[i + m];
  }

  // ---------------------------------------------------------------------------
  // The on-screen cards (formatAnalysisContent)
  // ---------------------------------------------------------------------------

  datatype Icon = Lightbulb | Target | TrendingUp | CheckCircle | Shield | Star | Zap | Clock

  /** The colour family used for a card's icon, border and header background. */
  datatype Palette = Purple | Blue | Green | Orange | Red | Yellow | Indigo | Teal

  datatype SectionStyle = SectionStyle(icon: Icon, palette: Palette)

  /** One `if (title.toLowerCase().includes(a) || ...)` override. */
  datatype StyleRule = StyleRule(keywords: seq<string>, style: SectionStyle)

  const DefaultStyle: SectionStyle := SectionStyle(Lightbulb, Purple)

  /** The overrides in source order; a later one that matches replaces an earlier one. */
  const StyleRules: seq<StyleRule> := [
    StyleRule(["career"], SectionStyle(Target, Blue)),
    StyleRule(["skills"], SectionStyle(TrendingUp, Green)),
    StyleRule(["action", "plan"], SectionStyle(CheckCircle, Orange)),
    StyleRule(["threat", "mitigation"], SectionStyle(Shield, Red)),
    StyleRule(["strength", "leveraging"], SectionStyle(Star, Yellow)),
    StyleRule(["industry", "insight"], SectionStyle(Zap, Indigo)),
    StyleRule(["next", "step"], SectionStyle(Clock, Teal))
  ]

  /** Some keyword of the rule occurs in the lower-cased title. */
  predicate RuleMatches(lowered: string, rule: StyleRule) {
    exists k :: 0 <= k < |rule.keywords| && Contains(lowered, rule.keywords[k])
  }

  function AnyKeyword(lowered: string, keywords: seq<string>): (b: bool)
    ensures b <==> exists k :: 0 <= k < |keywords| && Contains(lowered, keywords[k])
  {
    if |keywords| == 0 then false
    else
      assert forall k :: 1 <= k < |keywords| ==> keywords[k] == keywords[1..][k - 1];
      Includes(lowered, keywords[0]) || AnyKeyword(lowered, keywords[1..])
  }

  /** Runs the overrides `rules[k..]` in order over the style chosen so far. */
  function ApplyRules(lowered: string, rules: seq<StyleRule>, k: nat, current: SectionStyle): (r: SectionStyle)
    requires k <= |rules|
    decreases |rules| - k
    ensures (forall m :: k <= m < |rules| ==> !RuleMatches(lowered, rules[m])) ==> r == current
    ensures forall m :: k <= m < |rules| && RuleMatches(lowered, rules[m])
                        && (forall n :: m < n < |rules| ==> !RuleMatches(lowered, rules[n]))
                        ==> r == rules[m].style
  {
    if k == |rules| then current
    else
      ApplyRules(lowered, rules, k + 1, if AnyKeyword(lowered, rules[k].keywords) then rules[k].style else current)
  }

  /**
   * The style of a card: that of the last override whose keyword occurs in
   * the lower-cased title, or the purple light bulb when none does.
   */
  function StyleForTitle(title: string): (r: SectionStyle)
    ensures (forall m :: 0 <= m < |StyleRules| ==> !RuleMatches(LowerString(title), StyleRules[m])) ==> r == DefaultStyle
    ensures forall m :: 0 <= m < |StyleRules| && RuleMatches(LowerString(title), StyleRules[m])
                        && (forall n :: m < n < |StyleRules| ==> !RuleMatches(LowerString(title), StyleRules[n]))
                        ==> r == StyleRules[m].style
  {
    ApplyRules(LowerString(title), StyleRules, 0, DefaultStyle)
  }

  /** The default style is chosen exactly when no override matches. */
  lemma DefaultStyleIffNoRuleMatches(title: string)
    ensures StyleForTitle(title) == DefaultStyle <==>
            forall m :: 0 <= m < |StyleRules| ==> !RuleMatches(LowerString(title), StyleRules[m])
  {
    var lowered := LowerString(title);
    if exists m :: 0 <= m < |StyleRules| && RuleMatches(lowered, StyleRules[m]) {
      var m := LastMatch(lowered, StyleRules);
      assert StyleRules[m].style != DefaultStyle;
    }
  }

  /** The last override wins: a title naming a next step is teal with a clock, whatever else it names. */
  lemma NextStepTitleIsTeal(title: string)
    requires Contains(LowerString(title), "next") || Contains(LowerString(title), "step")
    ensures StyleForTitle(title) == SectionStyle(Clock, Teal)
  {
    var last := |StyleRules| - 1;
    var keywords := StyleRules[last].keywords;
    assert keywords[0] == "next" && keywords[1] == "step";
    if Contains(LowerString(title), "next") {
      assert Contains(LowerString(title), keywords[0]);
    } else {
      assert Contains(LowerString(title), keywords[1]);
    }
    assert RuleMatches(LowerString(title), StyleRules[last]);
  }

  /** The index of the last rule that matches, when one does. */
  lemma LastMatch(lowered: string, rules: seq<StyleRule>) returns (m: nat)
    requires exists m :: 0 <= m < |rules| && RuleMatches(lowered, rules[m])
    ensures m < |rules| && RuleMatches(lowered, rules[m])
    ensures forall n :: m < n < |rules| ==> !RuleMatches(lowered, rules[n])
  {
    var i :| 0 <= i < |rules| && RuleMatches(lowered, rules[i]);
    m := i;
    var j := i + 1;
    while j < |rules|
      invariant m < j <= |rules| && RuleMatches(lowered, rules[m])
      invariant forall n :: m < n < j ==> !RuleMatches(lowered, rules[n])
    {
      if RuleMatches(lowered, rules[j]) {
        m := j;
      }
      j := j + 1;
    }
  }

  /** The semibold tag, written in short pieces so that its characters can be checked one piece at a time. */
  const ScreenStrong: string := "<strong" + " class=" + "\"font-" + "semibold" + " text-" + "foreground\">"
  const ScreenEm: string := "<em class=\"italic\">"

  /** The inline substitution of the on-screen cards, applied line by line. */
  function ScreenInline(text: string): string {
    Emphasis(text, ScreenStrong, ScreenEm)
  }

  /** A line without an asterisk is shown as it is. */
  lemma ScreenInlineWithoutAsterisk(text: string)
    requires NoAsterisk(text)
    ensures ScreenInline(text) == text
  {
    EmphasisWithoutAsterisk(text, ScreenStrong, ScreenEm);
  }

  /** `**w**` is shown in the semibold `strong` tag. */
  lemma ScreenBoldBecomesStrong(w: string)
    requires NoAsterisk(w) && OneLine(w)
    ensures ScreenInline("**" + w + "**") == ScreenStrong + w + "</strong>"
  {
    NoAsteriskConcat("<strong", " class=");
    NoAsteriskConcat("<strong" + " class=", "\"font-");
    NoAsteriskConcat("<strong" + " class=" + "\"font-", "semibold");
    NoAsteriskConcat("<strong" + " class=" + "\"font-" + "semibold", " text-");
    NoAsteriskConcat("<strong" + " class=" + "\"font-" + "semibold" + " text-", "foreground\">");
    EmphasisBold(w, ScreenStrong, ScreenEm);
  }

  /** `*w*` is shown in the italic `em` tag. */
  lemma ScreenItalicBecomesEm(w: string)
    requires w != [] && NoAsterisk(w) && OneLine(w)
    ensures ScreenInline("*" + w + "*") == ScreenEm + w + "</em>"
  {
    EmphasisItalic(w, ScreenStrong, ScreenEm);
  }

  /** The on-screen kinds of a body line; the strings are the HTML each shows. */
  datatype ScreenLine =
    | Bracketed(text: string)
    | Bullet(html: string)
    | Numbered(number: string, html: string)
    | Header(text: string)
    | Plain(html: string)

  /** The longest a line ending in `:` may be and still show as a header. */
  const HeaderLimit: nat := 100

  /**
   * The kind of a non-blank trimmed line on screen, by priority: bracketed,
   * bullet, numbered, header (ends in `:` and is under 100 characters), plain.
   * A bullet shows the rest of the line trimmed; a numbered item its digits
   * and the text after the `.` and any whitespace; a paragraph the line.
   */
  function ScreenLineOf(t: string): (r: ScreenLine)
    requires t != []
    ensures r.Bracketed? <==> IsBracketed(t)
    ensures r.Bullet? <==> !IsBracketed(t) && IsBulletLine(t)
    ensures r.Numbered? <==> !IsBracketed(t) && !IsBulletLine(t) && IsNumbered(t)
    ensures r.Header? <==> !IsBracketed(t) && !IsBulletLine(t) && !IsNumbered(t) && t[|t| - 1] == ':' && |t| < HeaderLimit
    ensures r.Bracketed? ==> |t| >= 2 && r.text == t[1..|t| - 1]
    ensures r.Bullet? ==> r.html == ScreenInline(Trim(t[1..]))
    ensures r.Numbered? ==> 0 < |r.number| < |t| && r.number <= t && t[|r.number|] == '.'
                            && forall k :: 0 <= k < |r.number| ==> IsDigit(r.number[k])
    ensures r.Numbered? ==> r.number == t[..DigitRun(t, 0)]
                            && r.html == ScreenInline(t[SkipSpaces(t, DigitRun(t, 0) + 1)..])
    ensures r.Header? ==> r.text == t
    ensures r.Plain? ==> r.html == ScreenInline(t)
  {
    if IsBracketed(t) then Bracketed(t[1..|t| - 1])
    else if IsBulletLine(t) then Bullet(ScreenInline(Trim(t[1..])))
    else if IsNumbered(t) then
      var n := DigitRun(t, 0);
      Numbered(t[..n], ScreenInline(t[SkipSpaces(t, n + 1)..]))
    else if t[|t| - 1] == ':' && |t| < HeaderLimit then Header(t)
    else Plain(ScreenInline(t))
  }

  /** One body line on screen: nothing for a blank line, else the kind of the trimmed line. */
  function ClassifyScreenLine(line: string): (r: Option<ScreenLine>)
    ensures r.None? <==> IsBlank(line)
    ensures r.Some? ==> r.value == ScreenLineOf(Trim(line))
  {
    var t := Trim(line);
    if t == [] then None else Some(ScreenLineOf(t))
  }

  /** `formatText`: the non-blank lines of a body, classified, in order. */
  function FormatText(lines: seq<string>): (r: seq<ScreenLine>)
    decreases |lines|
    ensures |r| <= |lines|
    ensures (forall k :: 0 <= k < |lines| ==> IsBlank(lines[k])) ==> r == []
    ensures forall k :: 0 <= k < |lines| && !IsBlank(lines[k]) ==> ClassifyScreenLine(lines[k]).value in r
  {
    if |lines| == 0 then []
    else
      var rest := FormatText(lines[1..]);
      assert forall k :: 1 <= k < |lines| ==> lines[k] == lines[1..][k - 1];
      match ClassifyScreenLine(lines[0])
      case None => rest
      case Some(l) => [l] + rest
  }

  /** `formatText` works line by line: the order is kept and only blank lines are dropped. */
  lemma {:induction false} FormatTextAppend(a: seq<string>, b: seq<string>)
    ensures FormatText(a + b) == FormatText(a) + FormatText(b)
    decreases |a|
  {
    if a == [] {
      assert a + b == b;
    } else {
      assert (a + b)[1..] == a[1..] + b;
      FormatTextAppend(a[1..], b);
    }
  }

  /** One line shows nothing when blank, and otherwise the kind of the trimmed line. */
  lemma FormatTextSingle(x: string)
    ensures FormatText([x]) == if IsBlank(x) then [] else [ScreenLineOf(Trim(x))]
  {
    assert [x][1..] == [];
  }

  datatype ScreenSection = ScreenSection(title: string, style: SectionStyle, lines: seq<ScreenLine>)

  /** One card: the section's title, the style chosen from it, and the body's lines classified. */
  function ScreenSectionOf(piece: string): (r: ScreenSection)
    ensures r.title == SectionTitle(piece) && r.style == StyleForTitle(r.title)
    ensures r.lines == FormatText(SplitOn(SectionBody(piece), "\n"))
  {
    var title := SectionTitle(piece);
    ScreenSection(title, StyleForTitle(title), FormatText(SplitOn(SectionBody(piece), "\n")))
  }

  /** `formatAnalysisContent`: the on-screen cards, one per section, in order. */
  function ScreenSections(content: string): (r: seq<ScreenSection>)
    ensures |r| == |Sections(content)|
    ensures forall k :: 0 <= k < |r| ==> r[k] == ScreenSectionOf(Sections(content)[k])
  {
    MapSeq(ScreenSectionOf, Sections(content))
  }

  /**
   * The cards of `a ## b`, where that `##` is the first one, are the card of
   * `a` (unless `a` is blank) followed by the cards of `b`.
   */
  lemma ScreenReportAround(a: string, b: string)
    requires forall i: nat :: i < |a| ==> !StartsAt(a + "##" + b, i, "##")
    ensures ScreenSections(a + "##" + b) == (if IsBlank(a) then [] else [ScreenSectionOf(a)]) + ScreenSections(b)
  {
    SectionsAround(a, b);
    MapSeqAppend(ScreenSectionOf, Kept(a), Sections(b));
  }
}
