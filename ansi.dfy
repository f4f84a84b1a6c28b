/**
 * remove_ansi_escape_codes: deletes, left to right, every terminal escape
 * sequence of the two forms of ECMA-48 (ISO/IEC 6429) the script's pattern
 * recognises:
 *   - an Fe escape (section 5.3): ESC followed by one byte in 0x40-0x5A or 0x5C-0x5F;
 *   - a control sequence (section 5.4): ESC '[', parameter bytes 0x30-0x3F,
 *     intermediate bytes 0x20-0x2F, then one final byte 0x40-0x7E.
 * The three byte classes of a control sequence are disjoint, so the regular
 * expression's backtracking can only ever find the maximal-munch match, which
 * is what EscapeLength computes. An ESC that starts neither form is kept.
 */
module Ansi {
  import opened Strings

  const Esc: char := '\U{1B}'

  /** Second byte of an Fe escape: '@'..'Z' or '\\'..'_' ('[' starts a control sequence instead). */
  predicate IsFeByte(c: char)
  {
    ('@' <= c <= 'Z') || ('\\' <= c <= '_')
  }

  predicate IsParameterByte(c: char)
  {
    '0' <= c <= '?'
  }

  predicate IsIntermediateByte(c: char)
  {
    ' ' <= c <= '/'
  }

  predicate IsFinalByte(c: char)
  {
    '@' <= c <= '~'
  }

  /** The end of the longest run of characters satisfying `p` that begins at index `i`. */
  function RunEnd(s: string, i: nat, p: char -> bool): (j: nat)
    requires i <= |s|
    ensures i <= j <= |s|
    ensures forall k :: i <= k < j ==> p(s[k])
    ensures j < |s| ==> !p(s[j])
    decreases |s| - i
  {
    if i < |s| && p(s[i]) then RunEnd(s, i + 1, p) else i
  }

  /** The length of the escape sequence matched at the start of `s`, or 0 when none is (see EscapeLengthMatches). */
  function EscapeLength(s: string): (n: nat)
    requires s != [] && s[0] == Esc
    ensures n == 0 || 2 <= n <= |s|
  {
    if |s| < 2 then 0
    else if IsFeByte(s[1]) then 2
    else if s[1] == '[' then
      var params := RunEnd(s, 2, IsParameterByte);
      var inters := RunEnd(s, params, IsIntermediateByte);
      if inters < |s| && IsFinalByte(s[inters]) then inters + 1 else 0
    else 0
  }

  /** remove_ansi_escape_codes: `re.sub` of the escape pattern by the empty string. */
  function RemoveAnsiEscapeCodes(s: string): string
    decreases |s|
  {
    if s == [] then []
    else if s[0] == Esc && EscapeLength(s) > 0 then RemoveAnsiEscapeCodes(s[EscapeLength(s)..])
    else [s[0]] + RemoveAnsiEscapeCodes(s[1..])
  }

  /** The output is the input with some characters deleted: nothing is added or reordered. */
  lemma {:induction false} RemoveAnsiEscapeCodesIsSubsequence(s: string)
    ensures IsSubsequence(RemoveAnsiEscapeCodes(s), s)
    ensures |RemoveAnsiEscapeCodes(s)| <= |s|
    decreases |s|
  {
    var r := RemoveAnsiEscapeCodes(s);
    if s == [] {
    } else if s[0] == Esc && EscapeLength(s) > 0 {
      var n := EscapeLength(s);
      RemoveAnsiEscapeCodesIsSubsequence(s[n..]);
      SubsequenceOfSuffix(s, n);
      SubsequenceTrans(r, s[n..], s);
    } else {
      var rest := RemoveAnsiEscapeCodes(s[1..]);
      RemoveAnsiEscapeCodesIsSubsequence(s[1..]);
      assert r[1..] == rest;
    }
    SubsequenceLength(r, s);
  }

  /** Text holding no ESC is returned unchanged. */
  lemma {:induction false} RemoveAnsiEscapeCodesWithoutEsc(s: string)
    requires Esc !in s
    ensures RemoveAnsiEscapeCodes(s) == s
    decreases |s|
  {
    if s != [] {
      assert Esc !in s[1..];
      RemoveAnsiEscapeCodesWithoutEsc(s[1..]);
      assert [s[0]] + s[1..] == s;
    }
  }

  // ---------------------------------------------------------------------
  // Terminal output as ESC-free text interleaved with escape sequences
  // ---------------------------------------------------------------------

  datatype Piece =
    | Text(text: string)
    | Fe(code: char)
    | ControlSequence(parameters: string, intermediates: string, final: char)

  predicate WellFormed(p: Piece)
  {
    match p
    case Text(t) => Esc !in t
    case Fe(c) => IsFeByte(c)
    case ControlSequence(ps, ins, f) =>
      (forall i :: 0 <= i < |ps| ==> IsParameterByte(ps[i])) &&
      (forall i :: 0 <= i < |ins| ==> IsIntermediateByte(ins[i])) &&
      IsFinalByte(f)
  }

  function Render(p: Piece): string
  {
    match p
    case Text(t) => t
    case Fe(c) => [Esc, c]
    case ControlSequence(ps, ins, f) => [Esc, '['] + ps + ins + [f]
  }

  /** What a terminal stream made of `pieces` looks like. */
  function RenderAll(pieces: seq<Piece>): string
  {
    if pieces == [] then [] else Render(pieces[0]) + RenderAll(pieces[1..])
  }

  /** The visible text of `pieces`: their Text parts only. */
  function Visible(pieces: seq<Piece>): string
  {
    if pieces == [] then []
    else (if pieces[0].Text? then pieces[0].text else []) + Visible(pieces[1..])
  }

  lemma {:induction false} RemoveAfterText(t: string, rest: string)
    requires Esc !in t
    ensures RemoveAnsiEscapeCodes(t + rest) == t + RemoveAnsiEscapeCodes(rest)
    decreases |t|
  {
    var s := t + rest;
    if t == [] {
      assert s == rest;
    } else {
      assert Esc !in t[1..];
      RemoveAfterText(t[1..], rest);
      assert s[0] == t[0] && t[0] != Esc;
      assert s[1..] == t[1..] + rest;
      assert RemoveAnsiEscapeCodes(s) == [s[0]] + RemoveAnsiEscapeCodes(s[1..]);
      assert [t[0]] + (t[1..] + RemoveAnsiEscapeCodes(rest)) == t + RemoveAnsiEscapeCodes(rest);
    }
  }

  /** Maximal munch: the match at a well-formed escape is that escape, whatever follows it. */
  lemma RenderedEscapeLength(p: Piece, rest: string)
    requires WellFormed(p) && !p.Text?
    ensures |Render(p)| >= 2
    ensures EscapeLength(Render(p) + rest) == |Render(p)|
  {
    match p
    case Fe(c) =>
      var s := Render(p) + rest;
      assert s[0] == Esc && s[1] == c;
    case ControlSequence(ps, ins, f) =>
      ControlSequenceLength(ps, ins, f, rest);
  }

  lemma ControlSequenceLength(ps: string, ins: string, f: char, rest: string)
    requires WellFormed(ControlSequence(ps, ins, f))
    ensures var s := [Esc, '['] + ps + ins + [f] + rest;
      EscapeLength(s) == 3 + |ps| + |ins|
  {
    var s := [Esc, '['] + ps + ins + [f] + rest;
    var params := 2 + |ps|;
    var inters := params + |ins|;
    assert s[0] == Esc && s[1] == '[';
    assert forall k :: 2 <= k < params ==> s[k] == ps[k - 2];
    assert forall k :: params <= k < inters ==> s[k] == ins[k - params];
    assert s[inters] == f;
    RunEndAt(s, 2, params, IsParameterByte);
    RunEndAt(s, params, inters, IsIntermediateByte);
  }

  lemma RemoveAfterEscape(p: Piece, rest: string)
    requires WellFormed(p) && !p.Text?
    ensures RemoveAnsiEscapeCodes(Render(p) + rest) == RemoveAnsiEscapeCodes(rest)
  {
    var s := Render(p) + rest;
    RenderedEscapeLength(p, rest);
    assert s[|Render(p)|..] == rest;
  }

  /** Whatever EscapeLength matches is exactly a well-formed Fe escape or control sequence. */
  lemma EscapeLengthMatches(s: string)
    requires s != [] && s[0] == Esc && EscapeLength(s) > 0
    ensures exists p :: WellFormed(p) && !p.Text? && Render(p) == s[..EscapeLength(s)]
  {
    if IsFeByte(s[1]) {
      var w := Fe(s[1]);
      assert Render(w) == s[..2];
    } else {
      ControlSequenceMatch(s);
    }
  }

  lemma ControlSequenceMatch(s: string)
    requires s != [] && s[0] == Esc && EscapeLength(s) > 0 && !IsFeByte(s[1])
    ensures var params := RunEnd(s, 2, IsParameterByte);
      var inters := RunEnd(s, params, IsIntermediateByte);
      var w := ControlSequence(s[2..params], s[params..inters], s[inters]);
      WellFormed(w) && Render(w) == s[..EscapeLength(s)]
  {
    var params := RunEnd(s, 2, IsParameterByte);
    var inters := RunEnd(s, params, IsIntermediateByte);
    assert s[1] == '[' && inters < |s| && IsFinalByte(s[inters]);
    assert EscapeLength(s) == inters + 1;
    var ps, ins := s[2..params], s[params..inters];
    forall k | 0 <= k < |ps| ensures IsParameterByte(ps[k]) {
      assert ps[k] == s[2 + k];
    }
    forall k | 0 <= k < |ins| ensures IsIntermediateByte(ins[k]) {
      assert ins[k] == s[params + k];
    }
    SlicesRender(s, params, inters);
  }

  /** Cutting a string that starts with ESC '[' at two indices gives the control sequence of the parts. */
  lemma SlicesRender(s: string, params: nat, inters: nat)
    requires 2 <= params <= inters < |s| && s[0] == Esc && s[1] == '['
    ensures Render(ControlSequence(s[2..params], s[params..inters], s[inters])) == s[..inters + 1]
  {
    assert s[..2] == [Esc, '['];
    assert s[..params] == s[..2] + s[2..params];
    assert s[..inters] == s[..params] + s[params..inters];
    assert s[..inters + 1] == s[..inters] + [s[inters]];
  }

  /** Every well-formed escape at the start of `s` is the one EscapeLength matches. */
  lemma EscapeLengthMaximal(s: string, p: Piece)
    requires WellFormed(p) && !p.Text? && Render(p) <= s
    ensures s != [] && s[0] == Esc
    ensures EscapeLength(s) == |Render(p)|
  {
    RenderedEscapeLength(p, s[|Render(p)|..]);
    assert Render(p) + s[|Render(p)|..] == s;
  }

  /** An ESC at which nothing is matched starts no well-formed escape, and the pass keeps it. */
  lemma StrayEscKept(s: string)
    requires s != [] && s[0] == Esc
    ensures EscapeLength(s) == 0 ==> forall p :: WellFormed(p) && !p.Text? ==> !(Render(p) <= s)
    ensures EscapeLength(s) == 0 ==> RemoveAnsiEscapeCodes(s) == [Esc] + RemoveAnsiEscapeCodes(s[1..])
  {
    forall p | WellFormed(p) && !p.Text? && Render(p) <= s
      ensures 2 <= |Render(p)| == EscapeLength(s)
    {
      EscapeLengthMaximal(s, p);
      RenderedEscapeLength(p, []);
    }
  }

  /**
   * A single pass can leave an escape behind: in ESC ESC c c, with c an Fe
   * byte, the first ESC starts no escape and is kept, and it joins the c after
   * the Fe escape that follows it.
   */
  lemma RemoveAnsiEscapeCodesSinglePass(c: char)
    requires IsFeByte(c)
    ensures RemoveAnsiEscapeCodes([Esc, Esc, c, c]) == Render(Fe(c))
    ensures WellFormed(Fe(c))
  {
    var s := [Esc, Esc, c, c];
    var t := [Esc, c, c];
    assert EscapeLength(s) == 0;
    assert s[1..] == t;
    assert EscapeLength(t) == 2;
    assert t[2..] == [c];
    assert [c][1..] == [];
    assert RemoveAnsiEscapeCodes([c]) == [c] + RemoveAnsiEscapeCodes([]);
    assert RemoveAnsiEscapeCodes(t) == [c];
    assert RemoveAnsiEscapeCodes(s) == [Esc] + RemoveAnsiEscapeCodes(t);
  }

  /** A run that stops where `p` fails is the one RunEnd finds. */
  lemma RunEndAt(s: string, i: nat, j: nat, p: char -> bool)
    requires i <= j <= |s|
    requires forall k :: i <= k < j ==> p(s[k])
    requires j < |s| ==> !p(s[j])
    ensures RunEnd(s, i, p) == j
  {
  }

  /**
   * Interleaving ESC-free text with well-formed Fe escapes and control
   * sequences, then removing escape codes, yields exactly the text.
   */
  lemma {:induction false} RemoveAnsiEscapeCodesLeavesVisible(pieces: seq<Piece>)
    requires forall i :: 0 <= i < |pieces| ==> WellFormed(pieces[i])
    ensures RemoveAnsiEscapeCodes(RenderAll(pieces)) == Visible(pieces)
    decreases |pieces|
  {
    if pieces != [] {
      RemoveAnsiEscapeCodesLeavesVisible(pieces[1..]);
      var p := pieces[0];
      assert WellFormed(p);
      if p.Text? {
        RemoveAfterText(p.text, RenderAll(pieces[1..]));
      } else {
        RemoveAfterEscape(p, RenderAll(pieces[1..]));
      }
    }
  }
}
