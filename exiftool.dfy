/**
 * The tail of the script's main block (imagedesc.py:199-209): the keyword
 * reply is split at commas into keywords, and the exiftool argument list is
 * built from the three sanitised replies. Running exiftool is not part of
 * this model.
 */
module Exiftool {
  import opened Strings
  import Sanitizer

  /** `x.strip().replace('"', '')`: one comma-separated piece made into a keyword. */
  function CleanKeyword(piece: string): (kw: string)
    ensures '"' !in kw
    ensures IsSubsequence(kw, Strip(piece)) && IsSubsequence(kw, piece)
    ensures forall c :: c != '"' ==> Count(kw, c) == Count(Strip(piece), c)
    ensures |kw| + Count(Strip(piece), '"') == |Strip(piece)|
  {
    var t := Strip(piece);
    FilterLength(t, Sanitizer.NotQuote, '"');
    StripIsSubsequence(piece);
    SubsequenceTrans(Filter(t, Sanitizer.NotQuote), t, piece);
    Filter(t, Sanitizer.NotQuote)
  }

  /**
   * Line 205: the keywords of the reply. There is one per comma-separated
   * piece, so one more than the reply has commas, empty ones included.
   */
  function SplitKeywords(reply: string): (keywords: seq<string>)
    ensures |keywords| == |Split(reply, ',')| == Count(reply, ',') + 1
    ensures forall i :: 0 <= i < |keywords| ==> ',' !in keywords[i] && '"' !in keywords[i]
    ensures forall i :: 0 <= i < |keywords| ==> IsSubsequence(keywords[i], Split(reply, ',')[i])
  {
    var parts := Split(reply, ',');
    SplitShape(reply, ',');
    var keywords := seq(|parts|, i requires 0 <= i < |parts| => CleanKeyword(parts[i]));
    forall i | 0 <= i < |keywords| ensures ',' !in keywords[i] {
      SubsequenceAvoids(keywords[i], parts[i], ',');
    }
    keywords
  }

  /** Keywords with no comma, no quote and no whitespace at either end, joined by commas, split back into themselves. */
  lemma SplitKeywordsJoin(keywords: seq<string>)
    requires |keywords| >= 1
    requires forall i :: 0 <= i < |keywords| ==> ',' !in keywords[i] && '"' !in keywords[i]
    requires forall i :: 0 <= i < |keywords| ==> Trimmed(keywords[i])
    ensures SplitKeywords(Join(keywords, ',')) == keywords
  {
    SplitKeywordsOfJoin(keywords);
    forall i | 0 <= i < |keywords| ensures CleanKeyword(keywords[i]) == keywords[i] {
      CleanKeywordAfterSpace(keywords[i]);
    }
  }

  /** Splitting comma-free pieces joined by commas cleans each piece in turn. */
  lemma SplitKeywordsOfJoin(pieces: seq<string>)
    requires |pieces| >= 1
    requires forall i :: 0 <= i < |pieces| ==> ',' !in pieces[i]
    ensures |SplitKeywords(Join(pieces, ','))| == |pieces|
    ensures forall i :: 0 <= i < |pieces| ==> SplitKeywords(Join(pieces, ','))[i] == CleanKeyword(pieces[i])
  {
    SplitJoin(pieces, ',');
  }

  /** A trimmed, quote-free keyword comes back from its piece with or without one leading space. */
  lemma CleanKeywordAfterSpace(k: string)
    requires Trimmed(k) && '"' !in k
    ensures CleanKeyword(k) == k
    ensures CleanKeyword(" " + k) == k
  {
    StripUnchanged(k);
    StripAfterSpace(' ', k);
    assert " " + k == [' '] + k;
    FilterKeepsAll(k, Sanitizer.NotQuote);
  }

  /** The pieces of a reply written "k0, k1, ..., kn": every keyword after the first follows a space. */
  function CommaSpacePieces(keywords: seq<string>): (pieces: seq<string>)
    ensures |pieces| == |keywords|
  {
    seq(|keywords|, i requires 0 <= i < |keywords| => if i == 0 then keywords[0] else " " + keywords[i])
  }

  /**
   * A reply listing trimmed keywords free of commas and quotes as
   * "k0, k1, ..., kn", as the keyword prompt asks for, splits back into
   * exactly those keywords, in order.
   */
  lemma SplitKeywordsCommaSpace(keywords: seq<string>)
    requires |keywords| >= 1
    requires forall i :: 0 <= i < |keywords| ==> ',' !in keywords[i] && '"' !in keywords[i]
    requires forall i :: 0 <= i < |keywords| ==> Trimmed(keywords[i])
    ensures SplitKeywords(Join(CommaSpacePieces(keywords), ',')) == keywords
  {
    var pieces := CommaSpacePieces(keywords);
    forall i | 0 <= i < |pieces| ensures ',' !in pieces[i] {
      if i > 0 {
        assert pieces[i] == " " + keywords[i];
      }
    }
    SplitKeywordsOfJoin(pieces);
    forall i | 0 <= i < |pieces| ensures CleanKeyword(pieces[i]) == keywords[i] {
      CleanKeywordAfterSpace(keywords[i]);
    }
  }

  /** `-XMP:<name>="<value>"`: one tag assignment passed to exiftool. */
  function Tag(name: string, value: string): string
  {
    "-XMP:" + name + "=\"" + value + "\""
  }

  /**
   * A tag's value sits between the two quotes after the name, and when the
   * value holds no quote those two are the tag's only quotes.
   */
  lemma TagValue(name: string, value: string)
    requires '"' !in name
    ensures var tag := Tag(name, value);
      var start := |name| + 7;
      start <= |tag| - 1 && tag[start..|tag| - 1] == value
    ensures '"' !in value ==> Count(Tag(name, value), '"') == 2
  {
    var tag := Tag(name, value);
    var head := "-XMP:" + name + "=\"";
    assert tag == head + value + "\"";
    assert tag[|head|..|tag| - 1] == value;
    if '"' !in value {
      CountAppend("-XMP:", name, '"');
      CountZero(name, '"');
      CountAppend("-XMP:" + name, "=\"", '"');
      CountAppend(head, value, '"');
      CountZero(value, '"');
      CountAppend(head + value, "\"", '"');
    }
  }

  /** Every Subject tag built from the reply carries its keyword between exactly two quotes. */
  lemma SubjectTagsQuoted(reply: string)
    ensures forall i :: 0 <= i < |SplitKeywords(reply)| ==> Count(Tag("Subject", SplitKeywords(reply)[i]), '"') == 2
  {
    var keywords := SplitKeywords(reply);
    forall i | 0 <= i < |keywords| ensures Count(Tag("Subject", keywords[i]), '"') == 2 {
      TagValue("Subject", keywords[i]);
    }
  }

  /** Where the description tag sits: after `-overwrite_original`, if that is present. */
  function DescriptionIndex(preserve: bool): nat
  {
    if preserve then 0 else 1
  }

  /**
   * Lines 199-208: the exiftool argument list. `-overwrite_original` unless
   * the original is preserved, then the description with its quotes removed,
   * one Subject tag per keyword in order, the OCR text when there is any, and
   * the file name last.
   */
  method BuildExiftoolArgs(preserve: bool, description: string, keywordReply: string, ocr: string, filename: string)
    returns (cmdargs: seq<string>)
    ensures |cmdargs| ==
      DescriptionIndex(preserve) + 1 + |SplitKeywords(keywordReply)| + (if ocr != [] then 1 else 0) + 1
    ensures !preserve ==> cmdargs[0] == "-overwrite_original"
    ensures cmdargs[DescriptionIndex(preserve)] == Tag("Description", Filter(description, Sanitizer.NotQuote))
    ensures forall i :: 0 <= i < |SplitKeywords(keywordReply)| ==>
      cmdargs[DescriptionIndex(preserve) + 1 + i] == Tag("Subject", SplitKeywords(keywordReply)[i])
    ensures ocr != [] ==>
      cmdargs[DescriptionIndex(preserve) + 1 + |SplitKeywords(keywordReply)|] == Tag("OCRText", ocr)
    ensures cmdargs[|cmdargs| - 1] == filename
  {
    var keywords := SplitKeywords(keywordReply);
    cmdargs := AssembleArgs(preserve, description, keywords, ocr, filename);
  }

  /** Lines 199-208 once the keywords are split: the argument list laid out as BuildExiftoolArgs states. */
  method AssembleArgs(preserve: bool, description: string, keywords: seq<string>, ocr: string, filename: string)
    returns (cmdargs: seq<string>)
    ensures |cmdargs| == DescriptionIndex(preserve) + 1 + |keywords| + (if ocr != [] then 1 else 0) + 1
    ensures !preserve ==> cmdargs[0] == "-overwrite_original"
    ensures cmdargs[DescriptionIndex(preserve)] == Tag("Description", Filter(description, Sanitizer.NotQuote))
    ensures forall i :: 0 <= i < |keywords| ==> cmdargs[DescriptionIndex(preserve) + 1 + i] == Tag("Subject", keywords[i])
    ensures ocr != [] ==> cmdargs[DescriptionIndex(preserve) + 1 + |keywords|] == Tag("OCRText", ocr)
    ensures cmdargs[|cmdargs| - 1] == filename
  {
    var first := DescriptionIndex(preserve);
    cmdargs := if preserve then [] else ["-overwrite_original"];
    var desc := Filter(description, Sanitizer.NotQuote);
    cmdargs := cmdargs + [Tag("Description", desc)];
    var i := 0;
    while i < |keywords|
      invariant 0 <= i <= |keywords|
      invariant |cmdargs| == first + 1 + i
      invariant !preserve ==> cmdargs[0] == "-overwrite_original"
      invariant cmdargs[first] == Tag("Description", desc)
      invariant forall j :: 0 <= j < i ==> cmdargs[first + 1 + j] == Tag("Subject", keywords[j])
    {
      cmdargs := cmdargs + [Tag("Subject", keywords[i])];
      i := i + 1;
    }
    if ocr != [] {
      cmdargs := cmdargs + [Tag("OCRText", ocr)];
    }
    cmdargs := cmdargs + [filename];
  }
}
