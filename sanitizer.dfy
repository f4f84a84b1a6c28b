/**
 * The reply sanitiser of run_ollama_with_pty (imagedesc.py:110-143). Each of
 * the three raw replies goes, in this order, through: escape-code removal,
 * carriage-return removal, non-ASCII removal, strip_thinking, strip_ending,
 * (description only) the "Added image" lead-in drop, str.strip(), and (OCR
 * text only) the "none" sentinel and quote removal.
 */
module Sanitizer {
  import opened Strings
  import Ansi

  predicate NotCarriageReturn(c: char)
  {
    c != '\r'
  }

  predicate IsAscii(c: char)
  {
    c as int <= 0x7F
  }

  predicate NotQuote(c: char)
  {
    c != '"'
  }

  /** Text the first three sanitising steps leave: no carriage return, only ASCII. */
  predicate Clean(t: string)
  {
    '\r' !in t && forall c :: c in t ==> IsAscii(c)
  }

  // ---------------------------------------------------------------------
  // Carriage returns and non-ASCII characters (lines 111-112)
  // ---------------------------------------------------------------------

  /** `s.replace("\r", "")`. */
  function DropCarriageReturns(s: string): (r: string)
    ensures forall c :: c in r <==> c in s && c != '\r'
    ensures forall c :: c != '\r' ==> Count(r, c) == Count(s, c)
    ensures |r| + Count(s, '\r') == |s|
    ensures IsSubsequence(r, s)
  {
    FilterLength(s, NotCarriageReturn, '\r');
    Filter(s, NotCarriageReturn)
  }

  /** `re.sub(r'[^\x00-\x7F]+', '', s)`: every character above 0x7F is deleted. */
  function DropNonAscii(s: string): (r: string)
    ensures forall c :: c in r <==> c in s && c as int <= 0x7F
    ensures forall c :: c as int <= 0x7F ==> Count(r, c) == Count(s, c)
    ensures IsSubsequence(r, s)
  {
    Filter(s, IsAscii)
  }

  lemma DropCarriageReturnsIdempotent(s: string)
    ensures DropCarriageReturns(DropCarriageReturns(s)) == DropCarriageReturns(s)
  {
    FilterIdempotent(s, NotCarriageReturn);
  }

  lemma DropNonAsciiIdempotent(s: string)
    ensures DropNonAscii(DropNonAscii(s)) == DropNonAscii(s)
  {
    FilterIdempotent(s, IsAscii);
  }

  /** Lines 110-112: escape codes, then carriage returns, then non-ASCII characters go. */
  function RemoveNoise(raw: string): (r: string)
    ensures Clean(r)
    ensures IsSubsequence(r, raw)
  {
    var a := Ansi.RemoveAnsiEscapeCodes(raw);
    var b := DropCarriageReturns(a);
    var c := DropNonAscii(b);
    Ansi.RemoveAnsiEscapeCodesIsSubsequence(raw);
    SubsequenceTrans(c, b, a);
    SubsequenceTrans(c, a, raw);
    c
  }

  /** A subsequence of clean text is clean. */
  lemma CleanSubsequence(a: string, b: string)
    requires IsSubsequence(a, b) && Clean(b)
    ensures Clean(a)
  {
    forall c | c in a ensures c in b {
      SubsequenceMembers(a, b, c);
    }
  }

  // ---------------------------------------------------------------------
  // strip_thinking (lines 127-128): re.split(r'\n.\.\.\ [^\n]*', s)[-1]
  // ---------------------------------------------------------------------

  /**
   * The pattern of strip_thinking can match at index `i`: a newline, one
   * character other than a newline, two dots and a space; the match then runs
   * on to the end of that line.
   */
  predicate ThinkingAt(s: string, i: int)
  {
    0 <= i && i + 5 <= |s| && s[i] == '\n' && s[i + 1] != '\n' &&
    s[i + 2] == '.' && s[i + 3] == '.' && s[i + 4] == ' '
  }

  /** No match of the pattern starts at or after `i`. */
  ghost predicate NoThinkingFrom(s: string, i: int)
  {
    forall j :: i <= j ==> !ThinkingAt(s, j)
  }

  /** Where `[^\n]*` stops when it starts at `j`: the next newline, or the end. */
  function LineEnd(s: string, j: nat): (e: nat)
    requires j <= |s|
    ensures j <= e <= |s|
    ensures e < |s| ==> s[e] == '\n'
    ensures forall k :: j <= k < e ==> s[k] != '\n'
    decreases |s| - j
  {
    if j == |s| || s[j] == '\n' then j else LineEnd(s, j + 1)
  }

  /**
   * re.split's left-to-right scan from index `i`, the current piece having
   * begun at `start`: a match at `i` ends the piece and the scan resumes where
   * the match ends; otherwise it moves one character on. The result is where
   * the last piece begins.
   */
  function LastPieceStart(s: string, i: nat, start: nat): (k: nat)
    requires start <= i <= |s|
    ensures start <= k <= |s|
    decreases |s| - i
  {
    if i == |s| then start
    else if ThinkingAt(s, i) then
      var e := LineEnd(s, i + 5);
      LastPieceStart(s, e, e)
    else LastPieceStart(s, i + 1, start)
  }

  /** strip_thinking: the last piece of the split, a suffix of `s`. */
  function StripThinking(s: string): (r: string)
    ensures |r| <= |s| && r == s[|s| - |r|..]
  {
    s[LastPieceStart(s, 0, 0)..]
  }

  /** The scan ends the last piece at the line of the last match, and never skips a match. */
  lemma {:induction false} LastPieceAfterLastMatch(s: string, i: nat, start: nat)
    requires start <= i <= |s|
    ensures NoThinkingFrom(s, i) ==> LastPieceStart(s, i, start) == start
    ensures !NoThinkingFrom(s, i) ==>
      exists p ::
        (i <= p && ThinkingAt(s, p) && NoThinkingFrom(s, p + 1) &&
         LastPieceStart(s, i, start) == LineEnd(s, p + 5))
    decreases |s| - i
  {
    if i == |s| {
      assert NoThinkingFrom(s, i);
    } else if ThinkingAt(s, i) {
      var e := LineEnd(s, i + 5);
      LastPieceAfterLastMatch(s, e, e);
      forall j | i < j < e ensures !ThinkingAt(s, j) {
        assert s[j] != '\n';
      }
      if NoThinkingFrom(s, e) {
        assert NoThinkingFrom(s, i + 1);
        assert ThinkingAt(s, i);
      } else {
        var p :| e <= p && ThinkingAt(s, p) && NoThinkingFrom(s, p + 1) &&
          LastPieceStart(s, e, e) == LineEnd(s, p + 5);
        assert i <= p;
      }
    } else {
      LastPieceAfterLastMatch(s, i + 1, start);
      if !NoThinkingFrom(s, i + 1) {
        var p :| i + 1 <= p && ThinkingAt(s, p) && NoThinkingFrom(s, p + 1) &&
          LastPieceStart(s, i + 1, start) == LineEnd(s, p + 5);
        assert i <= p;
      }
    }
  }

  /** A match in a suffix is a match in the whole string. */
  lemma ThinkingInSuffix(s: string, k: nat, j: int)
    requires k <= |s| && ThinkingAt(s[k..], j)
    ensures ThinkingAt(s, k + j)
  {
    assert s[k..][j] == s[k + j];
    assert s[k..][j + 1] == s[k + j + 1];
    assert s[k..][j + 2] == s[k + j + 2];
    assert s[k..][j + 3] == s[k + j + 3];
    assert s[k..][j + 4] == s[k + j + 4];
  }

  /** Without any thinking line the text is returned unchanged. */
  lemma StripThinkingWithoutMatch(s: string)
    requires NoThinkingFrom(s, 0)
    ensures StripThinking(s) == s
  {
    LastPieceAfterLastMatch(s, 0, 0);
  }

  /**
   * Otherwise the result is everything after the line of the last match: it
   * is empty or starts with the newline that ended that line, and it holds no
   * further match.
   */
  lemma StripThinkingAfterLastMatch(s: string)
    requires !NoThinkingFrom(s, 0)
    ensures exists p ::
      (ThinkingAt(s, p) && NoThinkingFrom(s, p + 1) && StripThinking(s) == s[LineEnd(s, p + 5)..])
    ensures StripThinking(s) == [] || StripThinking(s)[0] == '\n'
    ensures NoThinkingFrom(StripThinking(s), 0)
  {
    LastPieceAfterLastMatch(s, 0, 0);
    var p :| 0 <= p && ThinkingAt(s, p) && NoThinkingFrom(s, p + 1) &&
      LastPieceStart(s, 0, 0) == LineEnd(s, p + 5);
    var k := LineEnd(s, p + 5);
    forall j ensures !ThinkingAt(s[k..], j) {
      if ThinkingAt(s[k..], j) {
        ThinkingInSuffix(s, k, j);
        assert false;
      }
    }
  }

  /** The result of strip_thinking never holds a match, so a second pass changes nothing. */
  lemma StripThinkingIdempotent(s: string)
    ensures StripThinking(StripThinking(s)) == StripThinking(s)
  {
    if NoThinkingFrom(s, 0) {
      StripThinkingWithoutMatch(s);
    } else {
      StripThinkingAfterLastMatch(s);
    }
    StripThinkingWithoutMatch(StripThinking(s));
  }

  // ---------------------------------------------------------------------
  // strip_ending (lines 129-130): s.split("\n>>>", 2)[0]
  // ---------------------------------------------------------------------

  /** The driven program's prompt banner, on a line of its own. */
  const Banner: string := "\n>>>"

  /** strip_ending: the text before the first banner, or all of it when there is none. */
  function StripEnding(s: string): (r: string)
    ensures r <= s
    ensures !Contains(r, Banner)
    ensures !Contains(s, Banner) ==> r == s
    ensures Contains(s, Banner) ==> OccursAt(s, Banner, |r|)
  {
    match Find(s, Banner)
    case None => s
    case Some(k) =>
      BeforeFirstOccurrence(s, k, Banner);
      s[..k]
  }

  lemma StripEndingIdempotent(s: string)
    ensures StripEnding(StripEnding(s)) == StripEnding(s)
  {
  }

  // ---------------------------------------------------------------------
  // The "Added image" lead-in (lines 136-137)
  // ---------------------------------------------------------------------

  const AddedImage: string := "\nAdded image"

  /**
   * Where `s.split("\n", n)[-1]` begins when splitting resumes at `i`: just
   * after the n-th newline from `i`, or after the last one if there are fewer.
   */
  function NewlineCut(s: string, i: nat, n: nat): (k: nat)
    requires i <= |s|
    ensures i <= k <= |s|
    decreases n
  {
    if n == 0 then i
    else
      var j := LineEnd(s, i);
      if j == |s| then i else NewlineCut(s, j + 1, n - 1)
  }

  /** `s.split("\n", n)[-1]`. */
  function AfterNewlines(s: string, n: nat): (r: string)
    ensures |r| <= |s| && r == s[|s| - |r|..]
    ensures n == 0 ==> r == s
  {
    s[NewlineCut(s, 0, n)..]
  }

  function Min(a: nat, b: nat): nat
  {
    if a <= b then a else b
  }

  lemma MinStep(n: nat, total: nat, rest: nat, cut: nat, cutRest: nat)
    requires n > 0 && total == 1 + rest && cut == 1 + cutRest && cutRest == Min(n - 1, rest)
    ensures cut == Min(n, total)
  {
  }

  /** From `i`, the text up to and including the next newline holds exactly one. */
  lemma OneNewline(s: string, i: nat, j: nat)
    requires i <= j < |s| && s[j] == '\n'
    requires forall k :: i <= k < j ==> s[k] != '\n'
    ensures Count(s[i..j + 1], '\n') == 1
  {
    assert '\n' !in s[i..j];
    CountZero(s[i..j], '\n');
    assert s[i..j + 1] == s[i..j] + [s[j]];
    CountAppend(s[i..j], [s[j]], '\n');
  }

  /**
   * What splitting from `i` cuts off holds exactly n newlines, or all of them
   * when there are fewer, and (unless empty) ends with a newline.
   */
  lemma {:induction false} NewlineCutCount(s: string, i: nat, n: nat)
    requires i <= |s|
    ensures Count(s[i..NewlineCut(s, i, n)], '\n') == Min(n, Count(s[i..], '\n'))
    ensures NewlineCut(s, i, n) == i || s[NewlineCut(s, i, n) - 1] == '\n'
    decreases n
  {
    assert s[i..i] == [];
    if n > 0 {
      var j := LineEnd(s, i);
      if j == |s| {
        assert '\n' !in s[i..];
        CountZero(s[i..], '\n');
      } else {
        OneNewline(s, i, j);
        NewlineCutCount(s, j + 1, n - 1);
        var k := NewlineCut(s, j + 1, n - 1);
        CountSlices(s, i, j + 1, k, '\n');
        CountSuffix(s, i, j + 1, '\n');
        MinStep(n, Count(s[i..], '\n'), Count(s[j + 1..], '\n'), Count(s[i..k], '\n'), Count(s[j + 1..k], '\n'));
      }
    }
  }

  /** Lines 136-137: only a text starting with a newline and "Added image" loses its lead-in. */
  function DropAddedImage(s: string): (r: string)
    ensures !(AddedImage <= s) ==> r == s
    ensures |r| <= |s| && r == s[|s| - |r|..]
  {
    if AddedImage <= s then AfterNewlines(s, 3) else s
  }

  /** With the lead-in, what is dropped runs through the third newline (or the last, if fewer). */
  lemma DropAddedImageCut(s: string)
    requires AddedImage <= s
    ensures var cut := s[..|s| - |DropAddedImage(s)|];
      Count(cut, '\n') == Min(3, Count(s, '\n')) && cut != [] && cut[|cut| - 1] == '\n'
  {
    NewlineCutCount(s, 0, 3);
    var k := NewlineCut(s, 0, 3);
    assert s[0..k] == s[..|s| - |DropAddedImage(s)|];
    assert s[0..] == s;
    assert s[0] == '\n';
    CountSlices(s, 0, 1, |s|, '\n');
    assert s[0..1] == "\n";
    assert s[0..|s|] == s;
    assert LineEnd(s, 0) == 0;
  }

  // ---------------------------------------------------------------------
  // The OCR field (lines 141-143)
  // ---------------------------------------------------------------------

  /**
   * `t.lower().startswith("none")`. ASCII lowering is exact here: the only
   * characters whose lower case begins with `n`, `o` or `e` are those
   * letters themselves, in either case.
   */
  predicate StartsWithNone(t: string)
  {
    |t| >= 4 && AsciiLower(t[0]) == 'n' && AsciiLower(t[1]) == 'o' &&
    AsciiLower(t[2]) == 'n' && AsciiLower(t[3]) == 'e'
  }

  /** The sentinel is "none" in any mix of upper and lower case, and nothing else. */
  lemma StartsWithNoneSpelling(t: string)
    ensures StartsWithNone(t) <==>
      |t| >= 4 && t[0] in "nN" && t[1] in "oO" && t[2] in "nN" && t[3] in "eE"
  {
  }

  /** Lines 141-143: strip; a reply starting with "none" (any case) is empty; then quotes go and it is stripped again. */
  function OcrField(s: string): (r: string)
    ensures '"' !in r
    ensures Trimmed(r)
    ensures StartsWithNone(Strip(s)) ==> r == []
    ensures !StartsWithNone(Strip(s)) ==> forall c :: c != '"' && !IsSpace(c) ==> Count(r, c) == Count(s, c)
    ensures IsSubsequence(r, s)
  {
    var t := Strip(s);
    var u := if StartsWithNone(t) then [] else t;
    var q := Filter(u, NotQuote);
    var r := Strip(q);
    StripKeepsCounts(s);
    StripKeepsCounts(q);
    StripIsSubsequence(s);
    StripIsSubsequence(q);
    SubsequenceRefl(t);
    SubsequenceTrans(q, u, t);
    SubsequenceTrans(r, q, t);
    SubsequenceTrans(r, t, s);
    SubsequenceAvoids(r, q, '"');
    r
  }

  /** An OCR reply that is not "none" and has no quotes comes back merely stripped. */
  lemma OcrFieldKeepsPlainText(s: string)
    requires !StartsWithNone(Strip(s)) && '"' !in Strip(s)
    ensures OcrField(s) == Strip(s)
  {
    FilterKeepsAll(Strip(s), NotQuote);
    StripIdempotent(s);
  }

  lemma QuoteFilterEmpty()
    ensures Filter(['"'], NotQuote) == []
  {
    assert ['"'][1..] == [];
  }

  /** A quoted reply loses its two quotes, and everything between them, inner whitespace included, is kept and stripped. */
  lemma OcrFieldOfQuoted(t: string)
    requires '"' !in t
    ensures OcrField(['"'] + t + ['"']) == Strip(t)
  {
    var s := ['"'] + t + ['"'];
    assert s[0] == '"' && s[|s| - 1] == '"';
    StripUnchanged(s);
    assert !StartsWithNone(Strip(s));
    QuoteFilterEmpty();
    FilterAppend(['"'] + t, ['"'], NotQuote);
    FilterAppend(['"'], t, NotQuote);
    FilterKeepsAll(t, NotQuote);
    assert Filter(Strip(s), NotQuote) == t;
  }

  /** Whitespace holds no quote, so removing quotes leaves it as it is. */
  lemma QuoteFilterKeepsSpace(a: string)
    requires AllSpace(a)
    ensures Filter(a, NotQuote) == a
  {
    forall c | c in a ensures NotQuote(c) {
      var i :| 0 <= i < |a| && a[i] == c;
    }
    FilterKeepsAll(a, NotQuote);
  }

  /**
   * Unless the reply starts with "none", the OCR field is the reply with
   * every quote removed, then stripped: the first strip changes nothing
   * that the last one would not, and whitespace between words is kept.
   */
  lemma OcrFieldValue(s: string)
    requires !StartsWithNone(Strip(s))
    ensures OcrField(s) == Strip(Filter(s, NotQuote))
  {
    var t := Strip(s);
    var n := LeadingSpace(s);
    var a, b := s[..n], s[n + |t|..];
    StripSplits(s);
    FilterAppend(a + t, b, NotQuote);
    FilterAppend(a, t, NotQuote);
    QuoteFilterKeepsSpace(a);
    QuoteFilterKeepsSpace(b);
    assert Filter(s, NotQuote) == a + Filter(t, NotQuote) + b;
    StripPadding(a, Filter(t, NotQuote), b);
  }

  // ---------------------------------------------------------------------
  // The whole pipeline (lines 110-144)
  // ---------------------------------------------------------------------

  /** Lines 110-134: the reply with escapes, noise, thinking lines and the trailing banner removed. */
  function Answer(raw: string): (r: string)
    ensures Clean(r) && !Contains(r, Banner)
    ensures IsSubsequence(r, raw)
  {
    var c := RemoveNoise(raw);
    var t := StripThinking(c);
    var r := StripEnding(t);
    SubsequenceOfSuffix(c, |c| - |t|);
    SubsequenceOfPrefix(t, |r|);
    assert r == t[..|r|];
    SubsequenceTrans(r, t, c);
    SubsequenceTrans(r, c, raw);
    CleanSubsequence(r, c);
    r
  }

  function Description(raw: string): string
  {
    Strip(DropAddedImage(Answer(raw)))
  }

  function KeywordText(raw: string): string
  {
    Strip(Answer(raw))
  }

  function OcrText(raw: string): string
  {
    OcrField(Answer(raw))
  }

  datatype Replies = Replies(description: string, keywords: string, ocr: string)

  /** Stripping clean, banner-free text keeps it so. */
  lemma StripCleanText(s: string, raw: string)
    requires Clean(s) && !Contains(s, Banner) && IsSubsequence(s, raw)
    ensures Clean(Strip(s)) && !Contains(Strip(s), Banner) && Trimmed(Strip(s))
    ensures IsSubsequence(Strip(s), raw)
  {
    var a := LeadingSpace(s);
    var r := Strip(s);
    StripIsSubsequence(s);
    SubsequenceTrans(r, s, raw);
    CleanSubsequence(r, s);
    SliceAvoids(s, a, a + |r|, Banner);
  }

  /** A suffix of clean, banner-free text is clean and banner-free. */
  lemma SuffixCleanText(a: string, d: string, raw: string)
    requires |d| <= |a| && d == a[|a| - |d|..]
    requires Clean(a) && !Contains(a, Banner) && IsSubsequence(a, raw)
    ensures Clean(d) && !Contains(d, Banner) && IsSubsequence(d, raw)
  {
    SubsequenceOfSuffix(a, |a| - |d|);
    SubsequenceTrans(d, a, raw);
    CleanSubsequence(d, a);
    SliceAvoids(a, |a| - |d|, |a|, Banner);
    assert a[|a| - |d|..|a|] == d;
  }

  lemma DescriptionSpec(raw: string)
    ensures var d := Description(raw);
      Clean(d) && Trimmed(d) && IsSubsequence(d, raw) && !Contains(d, Banner)
  {
    var a := Answer(raw);
    var d := DropAddedImage(a);
    SuffixCleanText(a, d, raw);
    StripCleanText(d, raw);
  }

  lemma KeywordTextSpec(raw: string)
    ensures var k := KeywordText(raw);
      Clean(k) && Trimmed(k) && IsSubsequence(k, raw) && !Contains(k, Banner)
  {
    StripCleanText(Answer(raw), raw);
  }

  lemma OcrTextSpec(raw: string)
    ensures var o := OcrText(raw);
      Clean(o) && Trimmed(o) && IsSubsequence(o, raw) && '"' !in o &&
      (StartsWithNone(Strip(Answer(raw))) ==> o == [])
  {
    var a := Answer(raw);
    SubsequenceTrans(OcrField(a), a, raw);
    CleanSubsequence(OcrField(a), a);
  }

  /**
   * run_ollama_with_pty's result: three clean, trimmed fields, each made of
   * characters of its raw reply in their original order; the description and
   * the keywords hold no banner line; the OCR text holds no quote and is empty
   * when the reply said "none".
   */
  function SanitizeReplies(initial: string, followUp: string, ocr: string): (r: Replies)
    ensures Clean(r.description) && Clean(r.keywords) && Clean(r.ocr)
    ensures Trimmed(r.description) && Trimmed(r.keywords) && Trimmed(r.ocr)
    ensures IsSubsequence(r.description, initial) && IsSubsequence(r.keywords, followUp) &&
      IsSubsequence(r.ocr, ocr)
    ensures !Contains(r.description, Banner) && !Contains(r.keywords, Banner)
    ensures '"' !in r.ocr
    ensures StartsWithNone(Strip(Answer(ocr))) ==> r.ocr == []
  {
    DescriptionSpec(initial);
    KeywordTextSpec(followUp);
    OcrTextSpec(ocr);
    Replies(Description(initial), KeywordText(followUp), OcrText(ocr))
  }

  // ---------------------------------------------------------------------
  // What the pipeline keeps: replies made of visible text and escape codes
  // ---------------------------------------------------------------------

  /** Text holding no ESC, no carriage return and only ASCII goes through the first three steps unchanged. */
  lemma RemoveNoiseOfClean(s: string)
    requires Ansi.Esc !in s && Clean(s)
    ensures RemoveNoise(s) == s
  {
    Ansi.RemoveAnsiEscapeCodesWithoutEsc(s);
    FilterKeepsAll(s, NotCarriageReturn);
    FilterKeepsAll(s, IsAscii);
  }

  /**
   * Terminal output made of visible text interleaved with escape codes: the
   * first three steps leave the visible text, without carriage returns and
   * non-ASCII characters.
   */
  lemma RemoveNoiseOfRendered(pieces: seq<Ansi.Piece>)
    requires forall i :: 0 <= i < |pieces| ==> Ansi.WellFormed(pieces[i])
    ensures RemoveNoise(Ansi.RenderAll(pieces)) == DropNonAscii(DropCarriageReturns(Ansi.Visible(pieces)))
  {
    Ansi.RemoveAnsiEscapeCodesLeavesVisible(pieces);
  }

  /** When the first three steps leave text with no thinking line and no banner, that text is the answer. */
  lemma AnswerOf(raw: string, v: string)
    requires RemoveNoise(raw) == v && NoThinkingFrom(v, 0) && !Contains(v, Banner)
    ensures Answer(raw) == v
  {
    StripThinkingWithoutMatch(v);
  }

  /** Two occurrences of the banner cannot overlap: before the first one, none starts. */
  lemma NoBannerBefore(s: string, v: string)
    requires v <= s && OccursAt(s, Banner, |v|) && !Contains(v, Banner)
    ensures forall j :: 0 <= j < |v| ==> !OccursAt(s, Banner, j)
  {
    forall j | 0 <= j < |v| ensures !OccursAt(s, Banner, j) {
      if j + |Banner| <= |v| {
        assert s[j..j + |Banner|] == v[j..j + |Banner|];
        assert !OccursAt(v, Banner, j);
      } else {
        var d := |v| - j;
        assert s[|v|..|v| + |Banner|][0] == '\n';
        assert s[j..j + |Banner|][d] == s[|v|];
        assert Banner[d] == '>';
      }
    }
  }

  /** Text followed by the banner loses the banner and all after it, and only that. */
  lemma StripEndingBeforeBanner(v: string, tail: string)
    requires Banner <= tail && !Contains(v, Banner)
    ensures StripEnding(v + tail) == v
  {
    var s := v + tail;
    assert s[|v|..|v| + |Banner|] == tail[..|Banner|];
    assert OccursAt(s, Banner, |v|);
    var r := StripEnding(s);
    assert OccursAt(s, Banner, |r|);
    NoBannerBefore(s, v);
    NoBannerBefore(s, r);
    assert r == s[..|v|] == v;
  }

  /** A reply that ends in the prompt banner: the answer is everything before the banner. */
  lemma AnswerBeforeBanner(raw: string, v: string, tail: string)
    requires RemoveNoise(raw) == v + tail && Banner <= tail
    requires NoThinkingFrom(v + tail, 0) && !Contains(v, Banner)
    ensures Answer(raw) == v
  {
    StripThinkingWithoutMatch(v + tail);
    StripEndingBeforeBanner(v, tail);
  }

  /**
   * Terminal output whose visible text is clean and has no thinking line,
   * and reads `v` followed either by nothing or by the prompt banner.
   */
  ghost predicate ShowsAnswer(pieces: seq<Ansi.Piece>, v: string)
  {
    var w := Ansi.Visible(pieces);
    (forall i :: 0 <= i < |pieces| ==> Ansi.WellFormed(pieces[i])) &&
    Clean(w) && NoThinkingFrom(w, 0) &&
    v <= w && !Contains(v, Banner) && (|v| == |w| || Banner <= w[|v|..])
  }

  /** Such a reply is answered by exactly `v`, the text before the banner. */
  lemma AnswerOfRendered(pieces: seq<Ansi.Piece>, v: string)
    requires ShowsAnswer(pieces, v)
    ensures Answer(Ansi.RenderAll(pieces)) == v
  {
    var raw, w := Ansi.RenderAll(pieces), Ansi.Visible(pieces);
    RemoveNoiseOfRendered(pieces);
    FilterKeepsAll(w, NotCarriageReturn);
    FilterKeepsAll(w, IsAscii);
    if |v| == |w| {
      assert v == w;
      AnswerOf(raw, v);
    } else {
      assert w == v + w[|v|..];
      AnswerBeforeBanner(raw, v, w[|v|..]);
    }
  }

  /** The description of such a reply is `v` stripped, after the "Added image" lead-in is dropped. */
  lemma DescriptionOfRendered(pieces: seq<Ansi.Piece>, v: string)
    requires ShowsAnswer(pieces, v)
    ensures Description(Ansi.RenderAll(pieces)) == Strip(DropAddedImage(v))
    ensures !(AddedImage <= v) ==> Description(Ansi.RenderAll(pieces)) == Strip(v)
  {
    AnswerOfRendered(pieces, v);
  }

  /** The keyword text of such a reply is `v` stripped. */
  lemma KeywordTextOfRendered(pieces: seq<Ansi.Piece>, v: string)
    requires ShowsAnswer(pieces, v)
    ensures KeywordText(Ansi.RenderAll(pieces)) == Strip(v)
  {
    AnswerOfRendered(pieces, v);
  }

  /** The OCR text of such a reply is the OCR field of `v`. */
  lemma OcrTextOfRendered(pieces: seq<Ansi.Piece>, v: string)
    requires ShowsAnswer(pieces, v)
    ensures OcrText(Ansi.RenderAll(pieces)) == OcrField(v)
  {
    AnswerOfRendered(pieces, v);
  }

  /** The three fields of run_ollama_with_pty's result for three such replies. */
  lemma SanitizeRepliesOfRendered(initial: seq<Ansi.Piece>, followUp: seq<Ansi.Piece>, ocr: seq<Ansi.Piece>,
                                  d: string, k: string, o: string)
    requires ShowsAnswer(initial, d) && ShowsAnswer(followUp, k) && ShowsAnswer(ocr, o)
    ensures var r := SanitizeReplies(Ansi.RenderAll(initial), Ansi.RenderAll(followUp), Ansi.RenderAll(ocr));
      r.description == Strip(DropAddedImage(d)) && r.keywords == Strip(k) && r.ocr == OcrField(o)
  {
    var a, b, c := Ansi.RenderAll(initial), Ansi.RenderAll(followUp), Ansi.RenderAll(ocr);
    DescriptionOfRendered(initial, d);
    KeywordTextOfRendered(followUp, k);
    OcrTextOfRendered(ocr, o);
    assert SanitizeReplies(a, b, c) == Replies(Description(a), KeywordText(b), OcrText(c));
  }

  /**
   * Escape removal is one left-to-right pass: an ESC that starts no escape is
   * kept, and with the characters after the escape that follows it, it can form
   * a new one. No later step removes it, as ESC is ASCII and not whitespace.
   */
  lemma KeywordTextKeepsEscape(c: char)
    requires Ansi.IsFeByte(c)
    ensures KeywordText([Ansi.Esc, Ansi.Esc, c, c]) == [Ansi.Esc, c]
  {
    var raw, e := [Ansi.Esc, Ansi.Esc, c, c], [Ansi.Esc, c];
    RemoveNoiseKeepsEscape(c);
    ShortReply(e);
    AnswerOf(raw, e);
    EscTrimmed(c);
    KeywordTextOfAnswer(raw, e);
  }

  lemma EscTrimmed(c: char)
    requires Ansi.IsFeByte(c)
    ensures Trimmed([Ansi.Esc, c])
  {
  }

  /** A trimmed answer is its own keyword text. */
  lemma KeywordTextOfAnswer(raw: string, e: string)
    requires Answer(raw) == e && Trimmed(e)
    ensures KeywordText(raw) == e
  {
    StripUnchanged(e);
  }

  lemma RemoveNoiseKeepsEscape(c: char)
    requires Ansi.IsFeByte(c)
    ensures RemoveNoise([Ansi.Esc, Ansi.Esc, c, c]) == [Ansi.Esc, c]
  {
    var e := [Ansi.Esc, c];
    Ansi.RemoveAnsiEscapeCodesSinglePass(c);
    assert forall x :: x in e ==> x == Ansi.Esc || x == c;
    FilterKeepsAll(e, NotCarriageReturn);
    FilterKeepsAll(e, IsAscii);
  }

  /** Text shorter than the banner holds neither a thinking line nor the banner. */
  lemma ShortReply(s: string)
    requires |s| < |Banner|
    ensures NoThinkingFrom(s, 0) && !Contains(s, Banner)
  {
  }
}
