/**
 * The heuristic SWOT extractor of the analysis page (`extractSwotFromAnalysis`):
 * it recovers strengths, weaknesses, opportunities and threats from the free
 * text a language model returned, falling back to a fixed sentence per field.
 *
 * Each field's regular expression
 *   /(?:SYNONYMS)[:\s]*\n?((?:(?!STOPS)[^\n])*(?:\n(?!STOPS)[^\n]*)*)/i
 * is written out as explicit scanning functions: `FindHeading` (the leftmost
 * synonym), `SkipColonsAndSpaces` (`[:\s]*`; the `\n?` after it never matches
 * anything, since the class already took every newline) and `CaptureEnd` (the
 * capture group). The cleanup chain (bullet strip, bold unwrap, bracket
 * unwrap, trim, cut to 400) follows.
 */
module SwotExtractor {
  import opened Wrappers
  import opened JsText

  datatype Field = Strengths | Weaknesses | Opportunities | Threats

  /** The record the extractor returns. */
  datatype SwotText = SwotText(strengths: string, weaknesses: string, opportunities: string, threats: string)
  {
    function Get(f: Field): string {
      match f
      case Strengths => strengths
      case Weaknesses => weaknesses
      case Opportunities => opportunities
      case Threats => threats
    }
  }

  /**
   * One alternative of a heading pattern, in lower case: `stem` followed by an
   * optional `s` when `optionalS` holds. Thus `weaknesses?` has the stem
   * "weaknesse": "weakness" alone is no heading.
   */
  datatype Synonym = Synonym(stem: string, optionalS: bool)

  /** The heading alternatives of each field, in the order of the source's alternation. */
  function Synonyms(f: Field): seq<Synonym> {
    match f
    case Strengths =>
      [Synonym(StrengthStem, true), Synonym("strong point", true)]
    case Weaknesses =>
      [Synonym(WeaknessStem, true), Synonym("areas for improvement", false), Synonym("limitation", true)]
    case Opportunities =>
      [Synonym(OpportunityStem, true), Synonym("potential", false), Synonym("growth area", true)]
    case Threats =>
      [Synonym(ThreatStem, true), Synonym("challenge", true), Synonym("risk", true), Synonym("obstacle", true)]
  }

  /** The field's own name: the first alternative of its heading pattern. */
  function PrimaryName(f: Field): string {
    Synonyms(f)[0].stem
  }

  /**
   * The negative lookahead of a field's capture: the primary names of the
   * other three fields, and `##`. A trailing `s?` in the source does not
   * change what a lookahead rejects, so only the stems are kept.
   */
  function StopWords(f: Field): seq<string> {
    match f
    case Strengths => [WeaknessStem, OpportunityStem, ThreatStem, SectionMark]
    case Weaknesses => [StrengthStem, OpportunityStem, ThreatStem, SectionMark]
    case Opportunities => [StrengthStem, WeaknessStem, ThreatStem, SectionMark]
    case Threats => [StrengthStem, WeaknessStem, OpportunityStem, SectionMark]
  }

  const StrengthStem: string := "strength"
  const WeaknessStem: string := "weaknesse"
  const OpportunityStem: string := "opportunitie"
  const ThreatStem: string := "threat"

  /** A Markdown heading, which also ends a capture. */
  const SectionMark: string := "##"

  /** The sentence a field keeps when nothing usable is extracted. */
  function Default(f: Field): string {
    match f
    case Strengths => StrengthsDefault
    case Weaknesses => WeaknessesDefault
    case Opportunities => OpportunitiesDefault
    case Threats => ThreatsDefault
  }

  const StrengthsDefault: string := "Strong technical skills and experience based on resume analysis"
  const WeaknessesDefault: string := "Areas for improvement identified from resume review"
  const OpportunitiesDefault: string := "Career growth opportunities based on current profile"
  const ThreatsDefault: string := "Market challenges and competitive factors to consider"

  /** The length an extracted value is cut to. */
  const MaxFieldLength: nat := 400

  /** An extracted value is kept only when it is longer than this. */
  const MinFieldLength: nat := 10

  /** Some alternative of `syns` matches, case-insensitively, at index `p`. */
  predicate HeadingAt(s: string, p: nat, syns: seq<Synonym>) {
    exists k :: 0 <= k < |syns| && StartsAtFolded(s, p, syns[k].stem)
  }

  predicate NonEmptyStems(syns: seq<Synonym>) {
    forall k :: 0 <= k < |syns| ==> |syns[k].stem| > 0
  }

  /** The first alternative of `syns` that matches at `p`. */
  function FirstSynonymAt(s: string, p: nat, syns: seq<Synonym>): (r: Option<Synonym>)
    ensures r.None? <==> !HeadingAt(s, p, syns)
    ensures r.Some? ==> r.value in syns && StartsAtFolded(s, p, r.value.stem)
  {
    if |syns| == 0 then None
    else if StartsAtFolded(s, p, syns[0].stem) then Some(syns[0])
    else
      var r := FirstSynonymAt(s, p, syns[1..]);
      assert forall k :: 1 <= k < |syns| ==> syns[k] == syns[1..][k - 1];
      r
  }

  /** Where a synonym matched at `p` ends, a following `s` or `S` included when it is optional. */
  function SynonymEnd(s: string, p: nat, syn: Synonym): (e: nat)
    requires StartsAtFolded(s, p, syn.stem)
    ensures p + |syn.stem| <= e <= p + |syn.stem| + 1 && e <= |s|
    ensures e == p + |syn.stem| + 1 <==> syn.optionalS && p + |syn.stem| < |s| && LowerAscii(s[p + |syn.stem|]) == 's'
  {
    var e := p + |syn.stem|;
    if syn.optionalS && e < |s| && LowerAscii(s[e]) == 's' then e + 1 else e
  }

  /** A matched heading: the index it starts at and the index just after it. */
  datatype Heading = Heading(start: nat, end: nat)

  /** The leftmost heading at or after `p`; the regular expression is not anchored. */
  function FindHeading(s: string, syns: seq<Synonym>, p: nat): (r: Option<Heading>)
    requires p <= |s| && NonEmptyStems(syns)
    decreases |s| - p
    ensures r.Some? ==> p <= r.value.start < r.value.end <= |s| && HeadingAt(s, r.value.start, syns)
    ensures forall q: nat :: p <= q < (if r.Some? then r.value.start else |s| + 1) ==> !HeadingAt(s, q, syns)
    ensures r.Some? ==> FirstSynonymAt(s, r.value.start, syns).Some?
                        && r.value.end == SynonymEnd(s, r.value.start, FirstSynonymAt(s, r.value.start, syns).value)
  {
    match FirstSynonymAt(s, p, syns)
    case Some(syn) =>
      Some(Heading(p, SynonymEnd(s, p, syn)))
    case None =>
      if p == |s| then None else FindHeading(s, syns, p + 1)
  }

  /** The leftmost heading of field `f` in `s`. */
  function FieldHeading(s: string, f: Field): (r: Option<Heading>)
    ensures r.None? <==> forall q: nat :: q <= |s| ==> !HeadingAt(s, q, Synonyms(f))
    ensures r.Some? ==> r.value.start < r.value.end <= |s| && HeadingAt(s, r.value.start, Synonyms(f))
    ensures r.Some? ==> forall q: nat :: q < r.value.start ==> !HeadingAt(s, q, Synonyms(f))
    ensures r.Some? ==> FirstSynonymAt(s, r.value.start, Synonyms(f)).Some?
                        && r.value.end == SynonymEnd(s, r.value.start, FirstSynonymAt(s, r.value.start, Synonyms(f)).value)
    ensures r.Some? ==> r.value.start + ShortestStem <= r.value.end
  {
    StemsAreLong(f);
    FindHeading(s, Synonyms(f), 0)
  }

  /** No synonym of any field is shorter than "risk". */
  const ShortestStem: nat := 4

  lemma StemsAreLong(f: Field)
    ensures forall syn :: syn in Synonyms(f) ==> |syn.stem| >= ShortestStem
  {
  }

  /** `[:\s]*`: the first index at or after `i` holding neither a colon nor whitespace. */
  function SkipColonsAndSpaces(s: string, i: nat): (j: nat)
    requires i <= |s|
    decreases |s| - i
    ensures i <= j <= |s|
    ensures forall k :: i <= k < j ==> s[k] == ':' || IsSpace(s[k])
    ensures j < |s| ==> s[j] != ':' && !IsSpace(s[j])
  {
    if i < |s| && (s[i] == ':' || IsSpace(s[i])) then SkipColonsAndSpaces(s, i + 1) else i
  }

  /** The lookahead `(?!STOPS)` fails at index `i`. */
  predicate StopAt(s: string, i: nat, stops: seq<string>) {
    exists k :: 0 <= k < |stops| && StartsAtFolded(s, i, stops[k])
  }

  /** The first `\n` at or after `i`, or the end of the text. */
  function NextNewline(s: string, i: nat): (k: nat)
    requires i <= |s|
    decreases |s| - i
    ensures i <= k <= |s|
    ensures forall m :: i <= m < k ==> s[m] != '\n'
    ensures k < |s| ==> s[k] == '\n'
  {
    if i == |s| || s[i] == '\n' then i else NextNewline(s, i + 1)
  }

  /** `(?:(?!STOPS)[^\n])*` from `i`: the first line runs to a newline or a stop word. */
  function FirstLineEnd(s: string, i: nat, stops: seq<string>): (e: nat)
    requires i <= |s|
    decreases |s| - i
    ensures i <= e <= |s|
    ensures forall k :: i <= k < e ==> s[k] != '\n'
    ensures forall k :: i <= k < e ==> !StopAt(s, k, stops)
    ensures e == |s| || s[e] == '\n' || StopAt(s, e, stops)
  {
    if i == |s| || s[i] == '\n' || StopAt(s, i, stops) then i else FirstLineEnd(s, i + 1, stops)
  }

  /**
   * `(?:\n(?!STOPS)[^\n]*)*` from `j`, a newline or a character of a line
   * already taken: whole lines, until a newline followed by a stop word.
   */
  function LaterLinesEnd(s: string, j: nat, stops: seq<string>): (e: nat)
    requires j <= |s|
    decreases |s| - j
    ensures j <= e <= |s|
    ensures forall k :: j < k <= e && s[k - 1] == '\n' ==> !StopAt(s, k, stops)
    ensures e == |s| || (s[e] == '\n' && StopAt(s, e + 1, stops))
  {
    if j == |s| then j
    else if s[j] == '\n' && StopAt(s, j + 1, stops) then j
    else LaterLinesEnd(s, j + 1, stops)
  }

  /**
   * The end of the capture group that starts at `c`. On the capture's first
   * line a stop word ends it wherever it starts; after that, only a line that
   * begins with a stop word does. Nothing before the end is such a point.
   */
  function CaptureEnd(s: string, c: nat, stops: seq<string>): (e: nat)
    requires c <= |s|
    ensures c <= e <= |s|
    ensures forall i :: c <= i < e && i < NextNewline(s, c) ==> !StopAt(s, i, stops)
    ensures forall j :: c < j <= e && s[j - 1] == '\n' ==> !StopAt(s, j, stops)
    ensures e == |s| || (e < NextNewline(s, c) && StopAt(s, e, stops)) || (s[e] == '\n' && StopAt(s, e + 1, stops))
  {
    var e1 := FirstLineEnd(s, c, stops);
    FirstLineWithinLine(s, c, stops);
    if e1 < |s| && s[e1] == '\n' then LaterLinesEnd(s, e1, stops) else e1
  }

  /** The first line of a capture ends at its newline or earlier, at a stop word. */
  lemma FirstLineWithinLine(s: string, c: nat, stops: seq<string>)
    requires c <= |s|
    ensures FirstLineEnd(s, c, stops) <= NextNewline(s, c)
    ensures var e1 := FirstLineEnd(s, c, stops);
            e1 < |s| && s[e1] == '\n' ==> e1 == NextNewline(s, c)
    ensures var e1 := FirstLineEnd(s, c, stops);
            e1 < |s| && s[e1] != '\n' ==> e1 < NextNewline(s, c) && StopAt(s, e1, stops)
  {
  }

  /** The index the capture group starts at, for a heading. */
  function CaptureStart(s: string, h: Heading): (c: nat)
    requires h.end <= |s|
    ensures h.end <= c <= |s|
    ensures forall k :: h.end <= k < c ==> s[k] == ':' || IsSpace(s[k])
    ensures c < |s| ==> s[c] != ':' && !IsSpace(s[c])
  {
    SkipColonsAndSpaces(s, h.end)
  }

  /** The text of the capture group (`match[1]`). */
  function Capture(s: string, h: Heading, f: Field): (cap: string)
    requires h.end <= |s|
    ensures var c := CaptureStart(s, h); c + |cap| == CaptureEnd(s, c, StopWords(f)) && cap == s[c..c + |cap|]
    ensures cap == [] || (cap[0] != ':' && !IsSpace(cap[0]))
  {
    var c := CaptureStart(s, h);
    s[c..CaptureEnd(s, c, StopWords(f))]
  }

  predicate IsBulletChar(c: char) {
    c == '-' || c == '*' || c == '\U{2022}'
  }

  /** A multiline `^` holds at `i`. */
  predicate AtLineStart(s: string, i: nat)
    requires i <= |s|
  {
    i == 0 || IsLineTerminator(s[i - 1])
  }

  /** `^\s*[-*•]` matches at `i` (the whitespace may include newlines). */
  predicate BulletAt(s: string, i: nat)
    requires i <= |s|
  {
    AtLineStart(s, i) && SkipSpaces(s, i) < |s| && IsBulletChar(s[SkipSpaces(s, i)])
  }

  /**
   * Where the match of `^\s*[-*•]\s*` at a bullet line ends: both runs of
   * whitespace are as long as they can be, and exactly one bullet sits
   * between them.
   */
  function BulletRunEnd(s: string, i: nat): (e: nat)
    requires i <= |s| && BulletAt(s, i)
    ensures SkipSpaces(s, i) < e <= |s|
    ensures IsBulletChar(s[SkipSpaces(s, i)])
    ensures forall k :: i <= k < e && k != SkipSpaces(s, i) ==> IsSpace(s[k])
    ensures e < |s| ==> !IsSpace(s[e])
  {
    SkipSpaces(s, SkipSpaces(s, i) + 1)
  }

  /**
   * `s.slice(i).replace(/^\s*[-*•]\s*\/gm, "")`, positions judged in `s`.
   * Only whitespace and bullet characters are removed.
   */
  function StripBulletsFrom(s: string, i: nat): (r: string)
    requires i <= |s|
    decreases |s| - i
    ensures |r| <= |s| - i
  {
    if i == |s| then []
    else if BulletAt(s, i) then StripBulletsFrom(s, BulletRunEnd(s, i))
    else [s[i]] + StripBulletsFrom(s, i + 1)
  }

  function StripBullets(s: string): (r: string)
    ensures |r| <= |s|
  {
    StripBulletsFrom(s, 0)
  }

  /** The bullet strip removes only whitespace and bullet characters. */
  lemma {:induction false} BulletsKeepOtherChars(s: string, i: nat, c: char)
    requires i <= |s| && !IsSpace(c) && !IsBulletChar(c)
    ensures multiset(StripBulletsFrom(s, i))[c] == multiset(s[i..])[c]
    decreases |s| - i
  {
    if i < |s| {
      if BulletAt(s, i) {
        var e := BulletRunEnd(s, i);
        assert s[i..] == s[i..e] + s[e..];
        assert c !in s[i..e];
        BulletsKeepOtherChars(s, e, c);
      } else {
        assert s[i..] == [s[i]] + s[i + 1..];
        BulletsKeepOtherChars(s, i + 1, c);
      }
    }
  }

  /** Up to the first line that opens with a bullet, the text is kept as it is. */
  lemma {:induction false} KeptBeforeBullet(s: string, i: nat, j: nat)
    requires i <= j <= |s|
    requires forall k: nat :: i <= k < j ==> !BulletAt(s, k)
    ensures StripBulletsFrom(s, i) == s[i..j] + StripBulletsFrom(s, j)
    decreases j - i
  {
    if i < j {
      KeptBeforeBullet(s, i + 1, j);
      assert s[i..j] == [s[i]] + s[i + 1..j];
    }
  }

  /**
   * The first bullet run at or after `i` is removed whole, and the text
   * before it is kept; the strip goes on just after the run.
   */
  lemma FirstBulletRemoved(s: string, i: nat, j: nat)
    requires i <= j <= |s|
    requires forall k: nat :: i <= k < j ==> !BulletAt(s, k)
    requires BulletAt(s, j)
    ensures StripBulletsFrom(s, i) == s[i..j] + StripBulletsFrom(s, BulletRunEnd(s, j))
  {
    KeptBeforeBullet(s, i, j);
  }

  /** `replace(/\*\*(.*?)\*\*\/g, "$1")`. */
  function StripBold(s: string): (r: string)
    ensures |r| <= |s|
  {
    ReplacePairs(s, "**", "**", "", "")
  }

  /** `replace(/\[(.*?)\]/g, "$1")`. */
  function StripBrackets(s: string): (r: string)
    ensures |r| <= |s|
  {
    ReplacePairs(s, "[", "]", "", "")
  }

  /** The bullet strip removes only whitespace and bullet characters. */
  lemma StripBulletsKeepsOtherChars(s: string)
    ensures forall c :: !IsSpace(c) && !IsBulletChar(c) ==> multiset(StripBullets(s))[c] == multiset(s)[c]
  {
    assert s[0..] == s;
    forall c | !IsSpace(c) && !IsBulletChar(c) ensures multiset(StripBullets(s))[c] == multiset(s)[c] {
      BulletsKeepOtherChars(s, 0, c);
    }
  }

  /** The bold unwrap removes only asterisks. */
  lemma StripBoldKeepsOtherChars(s: string)
    ensures forall c :: c != '*' ==> multiset(StripBold(s))[c] == multiset(s)[c]
  {
    ReplacePairsKeepsOtherChars(s, "**", "**", "", "");
    forall c | c != '*' ensures multiset(StripBold(s))[c] == multiset(s)[c] {
      assert c !in "**";
    }
  }

  /** The bracket unwrap removes only brackets. */
  lemma StripBracketsKeepsOtherChars(s: string)
    ensures forall c :: c != '[' && c != ']' ==> multiset(StripBrackets(s))[c] == multiset(s)[c]
  {
    ReplacePairsKeepsOtherChars(s, "[", "]", "", "");
    forall c | c != '[' && c != ']' ensures multiset(StripBrackets(s))[c] == multiset(s)[c] {
      assert c !in "[" && c !in "]";
    }
  }

  /** The cleanup chain before the cut: bullets, bold, brackets, then `trim`. */
  function CleanCapture(cap: string): (r: string)
    ensures |r| <= |cap|
    ensures r != [] ==> !IsSpace(r[0]) && !IsSpace(r[|r| - 1])
  {
    Trim(StripBrackets(StripBold(StripBullets(cap))))
  }

  /** The processed capture of a field, when one of its headings occurs. */
  function Candidate(s: string, f: Field): (r: Option<string>)
    ensures r.Some? ==> |r.value| <= MaxFieldLength
  {
    match FieldHeading(s, f)
    case None => None
    case Some(h) => Some(Truncate(CleanCapture(Capture(s, h, f)), MaxFieldLength))
  }

  /**
   * One field of the result: the processed capture, cut to 400 characters,
   * when the cleaned capture is longer than 10 characters, else the default.
   */
  function ExtractField(s: string, f: Field): (r: string)
    ensures r == Default(f) || (MinFieldLength < |r| <= MaxFieldLength && !IsSpace(r[0]))
    ensures FieldHeading(s, f).Some? && MinFieldLength < |CleanCapture(Capture(s, FieldHeading(s, f).value, f))|
            ==> r == Truncate(CleanCapture(Capture(s, FieldHeading(s, f).value, f)), MaxFieldLength)
  {
    match Candidate(s, f)
    case Some(v) => if |v| > MinFieldLength then v else Default(f)
    case None => Default(f)
  }

  /**
   * `extractSwotFromAnalysis`. Each field is extracted from the same input
   * text, on its own; every field is 11 to 400 characters long.
   */
  function ExtractSwot(analysisText: string): (r: SwotText)
    ensures r.strengths == ExtractField(analysisText, Strengths)
    ensures r.weaknesses == ExtractField(analysisText, Weaknesses)
    ensures r.opportunities == ExtractField(analysisText, Opportunities)
    ensures r.threats == ExtractField(analysisText, Threats)
    ensures MinFieldLength < |r.strengths| <= MaxFieldLength && MinFieldLength < |r.weaknesses| <= MaxFieldLength
    ensures MinFieldLength < |r.opportunities| <= MaxFieldLength && MinFieldLength < |r.threats| <= MaxFieldLength
  {
    DefaultsFitBounds();
    SwotText(ExtractField(analysisText, Strengths), ExtractField(analysisText, Weaknesses),
             ExtractField(analysisText, Opportunities), ExtractField(analysisText, Threats))
  }

  function AllDefaults(): SwotText {
    SwotText(Default(Strengths), Default(Weaknesses), Default(Opportunities), Default(Threats))
  }

  lemma DefaultsFitBounds()
    ensures forall f :: MinFieldLength < |Default(f)| <= MaxFieldLength
  {
  }

  /** Every extracted field, default or not, has 11 to 400 characters. */
  lemma FieldsFitBounds(s: string)
    ensures forall f :: MinFieldLength < |ExtractField(s, f)| <= MaxFieldLength
  {
    forall f ensures MinFieldLength < |ExtractField(s, f)| <= MaxFieldLength {
      DefaultsFitBounds();
    }
  }

  /** With no synonym of a field anywhere in the text, the field is its default. */
  lemma NoHeadingGivesDefault(s: string, f: Field)
    requires forall p: nat :: p <= |s| ==> !HeadingAt(s, p, Synonyms(f))
    ensures ExtractField(s, f) == Default(f)
  {
  }

  /** The empty text yields the four defaults. */
  lemma EmptyTextGivesDefaults()
    ensures ExtractSwot("") == AllDefaults()
  {
    forall f ensures ExtractField("", f) == Default(f) {
      NoHeadingGivesDefault("", f);
    }
  }

  /** A heading whose cleaned capture has at most 10 characters still yields the default. */
  lemma ShortCaptureGivesDefault(s: string, f: Field)
    requires FieldHeading(s, f).Some?
    requires |CleanCapture(Capture(s, FieldHeading(s, f).value, f))| <= MinFieldLength
    ensures ExtractField(s, f) == Default(f)
  {
  }

  /**
   * A value that is not the default comes from the leftmost heading: it is
   * the cleaned, trimmed capture cut to 400 characters, and that capture
   * had more than 10 characters.
   */
  lemma ExtractedIsCutOfCleanCapture(s: string, f: Field)
    requires ExtractField(s, f) != Default(f)
    ensures FieldHeading(s, f).Some?
    ensures var cleaned := CleanCapture(Capture(s, FieldHeading(s, f).value, f));
            && MinFieldLength < |cleaned|
            && ExtractField(s, f) <= cleaned
            && |ExtractField(s, f)| == if |cleaned| <= MaxFieldLength then |cleaned| else MaxFieldLength
  {
  }

  /** The stop words of `f` are exactly `##` and the primary names of the other three fields. */
  lemma StopWordsAreOtherPrimaryNames(f: Field)
    ensures forall w :: w in StopWords(f) <==> w == SectionMark || exists g: Field :: g != f && w == PrimaryName(g)
  {
    forall w ensures w in StopWords(f) <==> w == SectionMark || exists g: Field :: g != f && w == PrimaryName(g) {
      if w in StopWords(f) && w != SectionMark {
        var g := match f
          case Strengths => (if w == WeaknessStem then Weaknesses else if w == OpportunityStem then Opportunities else Threats)
          case _ => (if w == StrengthStem then Strengths else if w == WeaknessStem then Weaknesses
                     else if w == OpportunityStem then Opportunities else Threats);
        assert g != f && w == PrimaryName(g);
      }
    }
  }

  /**
   * Neither a field's own synonyms nor any field's secondary synonyms (such
   * as "limitation", "risk" or "potential") end a capture.
   */
  lemma OwnAndSecondaryNamesNeverStop(s: string, i: nat, f: Field, g: Field, k: nat)
    requires k < |Synonyms(g)| && (g == f || k > 0)
    requires StartsAtFolded(s, i, Synonyms(g)[k].stem)
    ensures !StopAt(s, i, StopWords(f))
  {
    var stem := Synonyms(g)[k].stem;
    if k == 0 {
      assert stem == PrimaryName(f);
      OwnNameClashes(f);
    } else {
      assert stem in SecondaryStems;
      SecondaryStemClashes(stem);
      StopWordsWithinAll(f);
    }
    ClashingStemNeverStops(s, i, stem, StopWords(f));
  }

  lemma OwnNameClashes(f: Field)
    ensures forall w :: w in StopWords(f) ==> !PrefixCompatible(PrimaryName(f), w)
  {
    forall w | w in StopWords(f) ensures !PrefixCompatible(PrimaryName(f), w) {
      DiffersAt(PrimaryName(f), w, 0);
    }
  }

  lemma StopWordsWithinAll(f: Field)
    ensures forall w :: w in StopWords(f) ==> w in AllStopWords
  {
  }

  /** Every heading alternative after a field's first. */
  const SecondaryStems: seq<string> :=
    ["strong point", "areas for improvement", "limitation", "potential", "growth area", "challenge", "risk", "obstacle"]

  /** The union of the four fields' stop words. */
  const AllStopWords: seq<string> := [StrengthStem, WeaknessStem, OpportunityStem, ThreatStem, SectionMark]

  lemma SecondaryStemClashes(stem: string)
    requires stem in SecondaryStems
    ensures forall w :: w in AllStopWords ==> !PrefixCompatible(stem, w)
  {
    forall w | w in AllStopWords ensures !PrefixCompatible(stem, w) {
      if stem[0] != w[0] {
        DiffersAt(stem, w, 0);
      } else if stem == "strong point" {
        DiffersAt(stem, w, 3);
      } else {
        DiffersAt(stem, w, 1);
      }
    }
  }

  /** A pattern that disagrees with every stop word, where it matches, is no stop point. */
  lemma ClashingStemNeverStops(s: string, i: nat, stem: string, stops: seq<string>)
    requires StartsAtFolded(s, i, stem)
    requires forall w :: w in stops ==> !PrefixCompatible(stem, w)
    ensures !StopAt(s, i, stops)
  {
    forall m | 0 <= m < |stops| ensures !StartsAtFolded(s, i, stops[m]) {
      if StartsAtFolded(s, i, stops[m]) {
        FoldedMatchesAgree(s, i, stem, stops[m]);
        assert false;
      }
    }
  }

  /** A line beginning "- " or "• " is stripped to its text. */
  lemma BulletDroppedAtStart(s: string)
    requires |s| >= 2 && IsBulletChar(s[0]) && !IsSpace(s[1])
    ensures StripBullets(s) == StripBulletsFrom(s, 1)
  {
  }

  /** Text in which no line begins (after whitespace) with a bullet is not changed by the bullet strip. */
  lemma NoBulletsUnchanged(s: string, i: nat)
    requires i <= |s|
    requires forall k: nat :: i <= k < |s| ==> !BulletAt(s, k)
    ensures StripBulletsFrom(s, i) == s[i..]
  {
    KeptBeforeBullet(s, i, |s|);
  }

  /**
   * A text too short to hold a synonym followed by more than 10 characters
   * yields the four defaults; "Strengths: ok" is one.
   */
  lemma ShortTextGivesDefaults(s: string)
    requires |s| <= ShortestStem + MinFieldLength
    ensures ExtractSwot(s) == AllDefaults()
  {
    forall f ensures ExtractField(s, f) == Default(f) {
      match FieldHeading(s, f)
      case None =>
      case Some(h) =>
        var c := CaptureStart(s, h);
        assert |Capture(s, h, f)| <= |s| - c;
    }
  }

  lemma StrengthsOkFallsBack()
    ensures ExtractSwot("Strengths: ok").strengths == Default(Strengths)
  {
    ShortTextGivesDefaults("Strengths: ok");
  }

  /**
   * A capture that opens with a bold marker loses only one of its asterisks
   * to the bullet strip, and the one left is not unwrapped as bold.
   */
  lemma LeadingBoldKeepsOneAsterisk(t: string)
    requires |t| > 0 && !IsSpace(t[0]) && t[0] != '*'
    requires forall k :: 0 <= k < |t| ==> !IsLineTerminator(t[k])
    ensures StripBullets("**" + t) == "*" + t
    ensures CleanCapture("**" + t) != [] && CleanCapture("**" + t)[0] == '*'
  {
    var s := "**" + t;
    assert SkipSpaces(s, 1) == 1;
    forall k: nat | 1 <= k < |s| ensures !BulletAt(s, k) {
      assert s[k - 1] == '*' || s[k - 1] == t[k - 3];
    }
    NoBulletsUnchanged(s, 1);
    var x := "*" + t;
    assert !StartsAt(x, 0, "**") by {
      assert x[1] == t[0];
    }
    var y := StripBold(x);
    assert y[0] == '*';
    MismatchAt(y, 0, "[", 0);
    var z := StripBrackets(y);
    assert z == [y[0]] + ReplacePairsFrom(y, "[", "]", "", "", 1);
    assert TrimStart(z) == 0;
  }

  /** A bold span within one line, holding no asterisk, loses its marks. */
  lemma BoldUnwrapped(w: string)
    requires forall k :: 0 <= k < |w| ==> w[k] != '*' && !IsLineTerminator(w[k])
    ensures StripBold("**" + w + "**") == w
  {
    var s := "**" + w + "**";
    forall m | 2 <= m < 2 + |w| ensures !StartsAt(s, m, "**") {
      assert s[m] == w[m - 2];
      MismatchAt(s, m, "**", 0);
    }
    WrappedPairReplaced("**", w, "**", "", "");
    assert "" + w + "" == w;
  }

  /** A bracketed span within one line, holding no closing bracket, is unwrapped. */
  lemma BracketUnwrapsOnce(w: string)
    requires forall k :: 0 <= k < |w| ==> w[k] != ']' && !IsLineTerminator(w[k])
    ensures StripBrackets("[" + w + "]") == w
  {
    var s := "[" + w + "]";
    forall m | 1 <= m < 1 + |w| ensures !StartsAt(s, m, "]") {
      assert s[m] == w[m - 1];
      MismatchAt(s, m, "]", 0);
    }
    WrappedPairReplaced("[", w, "]", "", "");
    assert "" + w + "" == w;
  }

  /**
   * The bracket unwrap is lazy and runs once, so cleaning is not idempotent:
   * "[[a]]" becomes "[a]", and only a second pass gives "a".
   */
  lemma BracketUnwrapNotIdempotent(w: string)
    requires forall k :: 0 <= k < |w| ==> w[k] != '[' && w[k] != ']' && !IsLineTerminator(w[k])
    ensures StripBrackets("[[" + w + "]]") == "[" + w + "]"
    ensures StripBrackets("[" + w + "]") == w
  {
    var inner := "[" + w;
    var s := "[" + inner + "]" + "]";
    assert s == "[[" + w + "]]";
    forall m | 1 <= m < 1 + |inner| ensures !StartsAt(s, m, "]") {
      assert s[m] == inner[m - 1];
      MismatchAt(s, m, "]", 0);
    }
    MismatchAt("]", 0, "[", 0);
    WrappedPairThenRest("[", inner, "]", "]", "", "");
    assert "" + inner + "" + "]" == "[" + w + "]";
    BracketUnwrapsOnce(w);
  }

  /** A line holding only a bullet is dropped together with the newline after it. */
  lemma BareBulletMergesLines()
    ensures StripBullets("a\n-\nb") == "a\nb"
  {
  }
}
