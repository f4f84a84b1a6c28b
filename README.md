# imagedesc: reply sanitiser, marker-framed reader and exiftool arguments

`imagedesc.py` drives a local multimodal chat program through a
pseudo-terminal. It sends three prompts (description, keywords, on-image
text), reads each reply until the program prints its `>>>` prompt again, and
cleans the three replies. It then writes the cleaned replies into the image's
XMP metadata with exiftool.

This project models the text side of that script in Dafny:

- `Strings`: the Python string primitives the script relies on:
  - `str.strip()`, with Python's full `isspace` set;
  - `str.split` on one character, and its inverse `join`;
  - deleting characters;
  - substring search.
- `Ansi`: `remove_ansi_escape_codes`. It deletes ECMA-48 (ISO/IEC 6429) Fe
  escapes (section 5.3) and control sequences (section 5.4), with the
  pattern's matcher written out by hand.
- `Sanitizer`: the fixed sequence of transforms applied to each raw reply:
  - escape codes, `\r` and non-ASCII characters are removed;
  - `strip_thinking`, modelled as `re.split`'s left-to-right scan;
  - `strip_ending`;
  - the "Added image" lead-in is dropped (description only);
  - `strip()`;
  - the OCR "none" sentinel and quote removal.
- `Reader`: `read_nonblocking` as a method with the script's loop. It runs
  over a finite sequence of read outcomes: data, empty read, would-block, or
  error.
- `Exiftool`: the keyword split and the construction of the exiftool
  argument list, as a method with a loop.

## Model

| member | source | states |
|---|---|---|
| Ansi.RemoveAnsiEscapeCodes | imagedesc.py:48-50 | The `re.sub` scan: at an ESC where EscapeLength matches, the whole match is skipped; otherwise one character is kept and the scan moves on. It has no ensures of its own. Its contract is stated by RemoveAnsiEscapeCodesIsSubsequence, RemoveAnsiEscapeCodesWithoutEsc, RemoveAnsiEscapeCodesLeavesVisible, StrayEscKept and RemoveAnsiEscapeCodesSinglePass. |
| Ansi.RemoveAnsiEscapeCodesIsSubsequence | imagedesc.py:48-50 | Escape removal only deletes characters: the output is a subsequence of the input and is never longer. |
| Ansi.RemoveAnsiEscapeCodesWithoutEsc | imagedesc.py:48-50 | Text with no ESC (0x1B) comes back unchanged. |
| Ansi.RemoveAnsiEscapeCodesLeavesVisible | imagedesc.py:49-50 | Interleave ESC-free text with well-formed Fe escapes and control sequences (each byte class as the pattern gives it). Removing escape codes then yields exactly the text. |
| Ansi.EscapeLength | imagedesc.py:49 | A match at an ESC is absent, or it spans 2 to \|s\| characters. |
| Ansi.EscapeLengthMatches | imagedesc.py:49 | Whatever is matched at an ESC is exactly one well-formed Fe escape or control sequence. |
| Ansi.EscapeLengthMaximal | imagedesc.py:49 | Any well-formed escape at the start of the text is the one matched, with its full length. |
| Ansi.RenderedEscapeLength | imagedesc.py:49 | The match at a well-formed escape is that escape, whatever text follows it. |
| Ansi.StrayEscKept | imagedesc.py:48-50 | When nothing is matched at an ESC, no well-formed escape starts there, and the ESC is kept while the scan goes on after it. |
| Ansi.RemoveAnsiEscapeCodesSinglePass | imagedesc.py:48-50 | The removal is one pass: for any Fe byte c, ESC ESC c c comes out as ESC c, which is itself a well-formed Fe escape. |
| Sanitizer.DropCarriageReturns | imagedesc.py:111 | A character is in the result iff it is in the input and is not `\r`. Every other character keeps its number of occurrences, the result is shorter by exactly the number of `\r`, and order is kept (subsequence). |
| Sanitizer.DropNonAscii | imagedesc.py:112 | A character is in the result iff it is in the input and is at most 0x7F. Every ASCII character keeps its number of occurrences, and order is kept. |
| Sanitizer.DropCarriageReturnsIdempotent | imagedesc.py:111 | Removing carriage returns a second time changes nothing. |
| Sanitizer.DropNonAsciiIdempotent | imagedesc.py:112 | Removing non-ASCII characters a second time changes nothing. |
| Sanitizer.RemoveNoise | imagedesc.py:110-120 | After the first three steps, the reply has no `\r` and only ASCII. It is a subsequence of the raw reply. |
| Sanitizer.RemoveNoiseOfClean | imagedesc.py:110-120 | Text with no ESC, no `\r` and only ASCII passes the first three steps unchanged. |
| Sanitizer.RemoveNoiseOfRendered | imagedesc.py:110-120 | For terminal output made of visible text and well-formed escapes, the first three steps leave exactly the visible text, minus `\r` and non-ASCII characters. |
| Sanitizer.ThinkingAt | imagedesc.py:128 | The start of a match of `\n.\.\.\ `: a newline, one character that is not a newline, two dots and a space. It is a predicate with no ensures. LineEnd gives where the match's `[^\n]*` stops. |
| Sanitizer.LineEnd | imagedesc.py:128 | `[^\n]*` run greedily from a position: it stops at the next newline, or at the end, and passes no newline on the way. |
| Sanitizer.StripThinking | imagedesc.py:127-128 | strip_thinking returns a suffix of its input. |
| Sanitizer.StripThinkingWithoutMatch | imagedesc.py:127-128 | With no `\n<char>.. ` line, the text is returned unchanged. |
| Sanitizer.StripThinkingAfterLastMatch | imagedesc.py:127-128 | Otherwise the result is everything after the line of the last match. It is empty or starts with `\n`, and it holds no further match. |
| Sanitizer.StripThinkingIdempotent | imagedesc.py:127-128 | A second strip_thinking changes nothing. |
| Sanitizer.LastPieceStart | imagedesc.py:128 | The `re.split` scan for thinking lines returns an index between the current piece's start and the end of the text. LastPieceAfterLastMatch states which index it is. |
| Sanitizer.LastPieceAfterLastMatch | imagedesc.py:128 | The re.split scan starts its last piece at the end of the line of the last match, never skipping one. With no match, the last piece starts where the scan's current piece began. |
| Sanitizer.StripEnding | imagedesc.py:129-130 | The result is a prefix of the input and holds no `"\n>>>"`. It is the whole input when there is no banner. Otherwise it stops exactly where the first banner starts. |
| Sanitizer.StripEndingIdempotent | imagedesc.py:129-130 | A second strip_ending changes nothing. |
| Sanitizer.DropAddedImage | imagedesc.py:136-137 | Text that does not start with `"\nAdded image"` is untouched. Otherwise the result is a suffix of the input. |
| Sanitizer.DropAddedImageCut | imagedesc.py:136-137 | With the lead-in, the dropped prefix ends with a newline. It holds min(3, newlines in the text) newlines: it runs through the third newline, or the last if there are fewer. |
| Sanitizer.NewlineCut | imagedesc.py:137 | The index where `split("\n", n)[-1]` starts lies between the starting point and the end. NewlineCutCount states how many newlines it passes. |
| Sanitizer.AfterNewlines | imagedesc.py:137 | `split("\n", n)[-1]` is a suffix of the text, and the whole text when n is 0. DropAddedImageCut and NewlineCutCount state where it starts. |
| Sanitizer.NewlineCutCount | imagedesc.py:137 | Take what `split("\n", n)[-1]` cuts off from a position onwards. It holds min(n, available) newlines and, unless empty, ends with one. |
| Sanitizer.OcrField | imagedesc.py:141-143 | The OCR field holds no `"`, has no whitespace at either end, and is a subsequence of its input. It is empty when the stripped text starts with "none" in any case. Otherwise every character other than `"` and whitespace keeps its number of occurrences. |
| Sanitizer.OcrFieldKeepsPlainText | imagedesc.py:141-143 | A reply that does not start with "none" and has no quotes is only stripped. |
| Sanitizer.OcrFieldValue | imagedesc.py:141-143 | Unless the stripped reply starts with "none", the OCR field is the reply with every `"` removed, then stripped. Whitespace between words is kept, so `a "b" c` gives `a b c`. |
| Sanitizer.QuoteFilterKeepsSpace | imagedesc.py:143 | Whitespace holds no `"`, so removing quotes leaves it unchanged. |
| Sanitizer.StartsWithNone | imagedesc.py:142 | `lower().startswith("none")`, with lower case taken character by character on ASCII letters. It is a predicate with no ensures. This is exact for every string: no other character lowers to text starting with `n`, `o` or `e`. StartsWithNoneSpelling states it. |
| Sanitizer.StartsWithNoneSpelling | imagedesc.py:142 | The "none" sentinel is matched exactly when the first four characters spell none in any mix of upper and lower case. |
| Strings.AsciiLower | imagedesc.py:142 | `c.lower()` for one character: `A`-`Z` become `a`-`z`, and everything else is unchanged. It has no ensures. For the test at line 142 this is exact, because only `N`, `O` and `E` lower to `n`, `o` and `e`. |
| Sanitizer.OcrFieldOfQuoted | imagedesc.py:141-143 | A reply wrapped in one pair of quotes loses the two quotes. Everything between them, inner whitespace included, is kept, and the result is stripped. |
| Sanitizer.Answer | imagedesc.py:110-134 | After escapes, noise, thinking lines and the banner are removed, a reply is clean, holds no banner, and is a subsequence of the raw reply. |
| Sanitizer.Description | imagedesc.py:110-139 | The description field, made of lines 110-112, 127-133, 136-137 and 139. It has no ensures of its own. DescriptionSpec and DescriptionOfRendered state its contract. |
| Sanitizer.KeywordText | imagedesc.py:114-140 | The keyword field, made of lines 114-116, 127-133 and 140. It has no ensures of its own. KeywordTextSpec, KeywordTextOfRendered and KeywordTextKeepsEscape state its contract. |
| Sanitizer.OcrText | imagedesc.py:118-143 | The OCR field, made of lines 118-120, 127-134 and 141-143. It has no ensures of its own. OcrTextSpec and OcrTextOfRendered state its contract. |
| Sanitizer.DescriptionSpec | imagedesc.py:110-139 | The description is clean, trimmed, banner-free and a subsequence of the raw reply. |
| Sanitizer.KeywordTextSpec | imagedesc.py:114-140 | The keyword reply is clean, trimmed, banner-free and a subsequence of the raw reply. |
| Sanitizer.OcrTextSpec | imagedesc.py:118-143 | The OCR text is clean, trimmed, quote-free and a subsequence of the raw reply. It is empty on a "none" reply. |
| Sanitizer.SanitizeReplies | imagedesc.py:110-144 | The three fields returned by run_ollama_with_pty satisfy all the field properties above together. |
| Sanitizer.AnswerOf | imagedesc.py:110-134 | When the first three steps leave text with no thinking line and no banner, the answer is exactly that text. |
| Sanitizer.NoBannerBefore | imagedesc.py:130 | Two occurrences of `"\n>>>"` cannot overlap: when text v with no banner is followed by a banner, no banner starts anywhere inside v. |
| Sanitizer.StripEndingBeforeBanner | imagedesc.py:129-130 | Text v with no banner, followed by a tail that starts with the banner: strip_ending returns exactly v. |
| Sanitizer.AnswerBeforeBanner | imagedesc.py:110-134 | When the first three steps leave v followed by the prompt banner and whatever comes after it, with no thinking line, the answer is exactly v. |
| Sanitizer.AnswerOfRendered | imagedesc.py:110-134 | Terminal output whose clean visible text, with no thinking line, reads v and then either nothing or the prompt banner (the usual end of a reply) is answered by exactly v. |
| Sanitizer.DescriptionOfRendered | imagedesc.py:110-139 | For such a reply, the description is v stripped after the "Added image" lead-in is dropped, and just v stripped when there is no lead-in. |
| Sanitizer.KeywordTextOfRendered | imagedesc.py:114-140 | For such a reply, the keyword text is v stripped. |
| Sanitizer.OcrTextOfRendered | imagedesc.py:118-143 | For such a reply, the OCR text is the OCR field of v. |
| Sanitizer.SanitizeRepliesOfRendered | imagedesc.py:110-144 | For three such replies, with answers d, k and o before their banners, the three fields of the result are the description of d, the keyword text of k and the OCR field of o, as in the three lemmas above. |
| Sanitizer.KeywordTextOfAnswer | imagedesc.py:140 | An answer with no whitespace at either end is its own keyword text. |
| Sanitizer.RemoveNoiseKeepsEscape | imagedesc.py:110-120 | For any Fe byte c, the first three steps turn ESC ESC c c into ESC c. |
| Sanitizer.KeywordTextKeepsEscape | imagedesc.py:114-140 | For any Fe byte c, a keyword reply ESC ESC c c comes out of the whole pipeline as ESC c: the escape left by the single removal pass survives every later step. |
| Strings.Strip | imagedesc.py:139-141 | `str.strip()` removes only whitespace, from both ends, and leaves no whitespace at either end. |
| Strings.StripIdempotent | imagedesc.py:143 | Stripping a stripped string changes nothing. |
| Strings.StripAfterSpace | imagedesc.py:205 | Leading whitespace makes no difference to `strip()`. |
| Strings.StripUnchanged | imagedesc.py:143 | A string with no whitespace at either end is its own strip. |
| Strings.StripBeforeSpace | imagedesc.py:143 | Trailing whitespace makes no difference to `strip()`. |
| Strings.StripLeadingPadding | imagedesc.py:143 | Any amount of whitespace in front makes no difference to `strip()`. |
| Strings.StripTrailingPadding | imagedesc.py:143 | Any amount of whitespace behind makes no difference to `strip()`. |
| Strings.StripPadding | imagedesc.py:141-143 | Whitespace added at both ends makes no difference to `strip()`. |
| Strings.StripSplits | imagedesc.py:141 | `strip()` cuts only whitespace: the text is the whitespace cut in front, then the strip, then the whitespace cut behind. |
| Strings.StripKeepsCounts | imagedesc.py:139-143 | `strip()` keeps every occurrence of every non-whitespace character. |
| Strings.Filter | imagedesc.py:111-112 | Deleting characters keeps exactly those the test accepts, each with its number of occurrences, in order. |
| Strings.FilterLength | imagedesc.py:111 | Deleting one character shortens the text by its number of occurrences. |
| Strings.FilterAppend | imagedesc.py:143 | Deleting characters from two joined strings is deleting them from each and joining the results. |
| Strings.StripKeepsOccurrence | imagedesc.py:62-68 | A marker that neither starts nor ends with whitespace survives the final strip. |
| Strings.Contains | imagedesc.py:62 | Python's `pat in s`: some index holds an occurrence of the pattern. It is a predicate with no ensures. Find and StripKeepsOccurrence relate it to the first occurrence and to the strip. |
| Strings.Find | imagedesc.py:129-130 | The first occurrence of a pattern: it occurs there and nowhere earlier. None exactly when the pattern does not occur. |
| Strings.Split | imagedesc.py:205 | `str.split` on one character always yields at least one piece. SplitShape, JoinSplit and SplitJoin state the rest of its contract. |
| Strings.Join | imagedesc.py:205 | Joining pieces with the separator between them, the inverse of Split. It has no ensures of its own. JoinSplit and SplitJoin state its contract. |
| Strings.SplitShape | imagedesc.py:205 | `split(',')` yields one piece more than there are commas, and no piece holds a comma. |
| Strings.JoinSplit | imagedesc.py:205 | Joining the pieces of a split by the separator gives the text back. |
| Strings.SplitJoin | imagedesc.py:205 | Splitting separator-free pieces joined by the separator gives the pieces back. |
| Reader.ReadNonblocking | imagedesc.py:52-68 | The response is the strip of the in-order concatenation of the chunks consumed. Every read before the last one keeps the loop going: it would block, or it brings text with no marker yet. The last read is why the loop stopped: the marker is now in the buffer, or an empty read, or an error. The marker was not in the buffer before the last chunk. A marker that is found survives the strip. |
| Reader.Received | imagedesc.py:59 | The buffer after n reads: `response += chunk` over the first n read outcomes, where only data reads add text. It has no ensures of its own. ReceivedAppend, ReceivedGrows and ReceivedOnlyPrefix state its contract, and ReadNonblocking's result is its strip. |
| Reader.ReceivedAppend | imagedesc.py:59 | The accumulated text of two runs of reads is the first run's text followed by the second's. |
| Reader.ReceivedGrows | imagedesc.py:59 | The buffer only grows: the text of fewer reads is a prefix of the text of more reads. |
| Reader.ReceivedOnlyPrefix | imagedesc.py:59 | The text after n reads depends on those n reads only. |
| Reader.MarkerIsNotBlank | imagedesc.py:52 | The default marker `>>>` neither starts nor ends with whitespace, so ReadNonblocking's last guarantee applies to it. |
| Exiftool.CleanKeyword | imagedesc.py:205 | A keyword holds no `"` and is a subsequence of its stripped piece. Every character other than `"` keeps its number of occurrences from the stripped piece, so the keyword is shorter by exactly its quotes. |
| Exiftool.SplitKeywords | imagedesc.py:205 | There is one keyword per comma-separated piece: the comma count plus one. Each keyword is a subsequence of its own piece, so the order is kept. No keyword holds `,` or `"`. |
| Exiftool.SplitKeywordsJoin | imagedesc.py:205 | Keywords free of commas and quotes, with no whitespace at either end, split back from their comma-joined text. |
| Exiftool.SplitKeywordsOfJoin | imagedesc.py:205 | For comma-free pieces joined by commas, the split cleans each piece in turn. |
| Exiftool.CleanKeywordAfterSpace | imagedesc.py:205 | A trimmed, quote-free keyword comes back unchanged from its piece, with or without one leading space. |
| Exiftool.SplitKeywordsCommaSpace | imagedesc.py:205 | Take trimmed keywords free of commas and quotes, written as "k0, k1, ..., kn" (the form the keyword prompt asks for). The reply splits back into exactly those keywords, in order. |
| Exiftool.Tag | imagedesc.py:204-208 | One `-XMP:<name>="<value>"` argument. It has no ensures of its own. TagValue and SubjectTagsQuoted state its contract. |
| Exiftool.TagValue | imagedesc.py:204-208 | A tag's value sits between the quotes after the tag name. A quote-free value leaves exactly two quotes in the tag. |
| Exiftool.SubjectTagsQuoted | imagedesc.py:205-206 | Every Subject tag built from the keyword reply holds exactly two quotes. |
| Exiftool.BuildExiftoolArgs | imagedesc.py:199-209 | The argument list holds, in this order: `-overwrite_original` exactly when not preserving; the description tag with quotes removed; one Subject tag per keyword, in order; an OCRText tag exactly when the OCR text is non-empty; the file name last. |
| Exiftool.AssembleArgs | imagedesc.py:199-209 | The same layout, for keywords already split. The list is built by appending in a loop. |

## Left out

- Pseudo-terminal set-up (`pty.openpty`, `termios`, `fcntl`, echo, non-blocking mode): operating-system I/O. The reads are replaced by a finite sequence of their outcomes.
- Starting the chat program, `os.write` of the prompts, `os.close`, and the three-turn sequencing: process and descriptor plumbing. The three raw replies are inputs to `Sanitizer.SanitizeReplies`.
- `time.sleep` on a blocked read: a would-block event only retries.
- UTF-8 decoding of each 4096-byte read: chunks arrive as decoded text. A decoding error, which would abort the script, is not modelled.
- Reader.ReadNonblocking: the script polls forever when no read ends the loop. The model stops with `EventsExhausted` when the event sequence runs out. There is no timeout in the script and none is modelled.
- `shlex.quote` in the first prompt, prompt texts, argument parsing, HEIF detection with `file`, `sips` conversion, `tempfile`: external tools, not part of the text logic.
- Running exiftool (`run_shell_command`), the `--write` dry-run print and the exit codes: external process.
- `DEBUG` printing: side output only.

## Behaviour worth noting

- The "Added image" lead-in is dropped only when the description starts with a newline followed by `Added image` (line 136). A reply that starts with `Added image` with no leading newline keeps its first line.
- A keyword is stripped first and has its quotes removed afterwards (line 205). `" red"` (quote, space, `red`, quote) becomes ` red`, with its space kept. An empty piece (for example after a trailing comma) gives an empty keyword.
- A thinking line is a newline, any one character other than a newline, two dots and a space (line 128). The first character may be a letter or digit.
- Quotes are removed from the OCR text whether or not it was mapped to the empty string (line 143).
- Escape removal is a single `re.sub` pass (line 50). An ESC that starts no escape is kept, and it can combine with what follows a removed escape: for an Fe byte c, ESC ESC c c leaves ESC c, and no later step removes it.
