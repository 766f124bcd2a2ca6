/** The string-level steps of HTML export: the rewrite of a leaf `div`
    whose text holds line breaks, the three global clean-ups of the
    serialised markup, and the fixed document shell the markup is placed in. */
module Export {
  import opened Optional
  import opened Strings

  // ---------------------------------------------------------------------
  // Multi-line text

  /** The escape of one character. */
  function EscapeChar(c: char): string {
    if c == '<' then "&lt;" else if c == '>' then "&gt;" else [c]
  }

  /** The escapes of the characters, one after the other. */
  function EscapeChars(line: string): string
    decreases |line|
  {
    if |line| == 0 then "" else EscapeChar(line[0]) + EscapeChars(line[1..])
  }

  lemma {:induction false} EscapeCharsShape(line: string)
    ensures '<' !in EscapeChars(line) && '>' !in EscapeChars(line)
    ensures '<' !in line && '>' !in line ==> EscapeChars(line) == line
    ensures IsBlank(EscapeChars(line)) <==> IsBlank(line)
    ensures '\n' !in line ==> '\n' !in EscapeChars(line)
  {
    EscapeCharsKeepsPlain(line);
    EscapeCharsBlank(line);
  }

  /** What the escape of one character holds. */
  lemma EscapeCharShape(c: char)
    ensures '<' !in EscapeChar(c) && '>' !in EscapeChar(c)
    ensures c != '<' && c != '>' ==> EscapeChar(c) == [c]
    ensures c != '\n' ==> '\n' !in EscapeChar(c)
    ensures IsBlank(EscapeChar(c)) <==> IsJsSpace(c)
  {
    if c == '<' || c == '>' {
      assert !IsJsSpace(EscapeChar(c)[0]);
    }
  }

  lemma {:induction false} EscapeCharsKeepsPlain(line: string)
    ensures '<' !in EscapeChars(line) && '>' !in EscapeChars(line)
    ensures '<' !in line && '>' !in line ==> EscapeChars(line) == line
    ensures '\n' !in line ==> '\n' !in EscapeChars(line)
    decreases |line|
  {
    if |line| > 0 {
      EscapeCharShape(line[0]);
      EscapeCharsKeepsPlain(line[1..]);
      assert line == [line[0]] + line[1..];
    }
  }

  lemma {:induction false} EscapeCharsBlank(line: string)
    ensures IsBlank(EscapeChars(line)) <==> IsBlank(line)
    decreases |line|
  {
    if |line| > 0 {
      EscapeCharShape(line[0]);
      EscapeCharsBlank(line[1..]);
      BlankAppend(EscapeChar(line[0]), EscapeChars(line[1..]));
      BlankAppend([line[0]], line[1..]);
      assert line == [line[0]] + line[1..];
      assert IsBlank([line[0]]) <==> IsJsSpace(line[0]);
    }
  }

  /** Replaces `<` by `&lt;` and `>` by `&gt;`; `&` is left as it is. The
      source applies two global replaces one after the other; since the
      first inserts no `>`, one pass over the characters is the same. */
  function EscapeAngles(line: string): (r: string)
    ensures '<' !in r && '>' !in r
    ensures '<' !in line && '>' !in line ==> r == line
    ensures IsBlank(r) <==> IsBlank(line)
    ensures '\n' !in line ==> '\n' !in r
  {
    EscapeCharsShape(line);
    EscapeChars(line)
  }

  /** A concatenation is blank exactly when both parts are. */
  lemma BlankAppend(a: string, b: string)
    ensures IsBlank(a + b) <==> IsBlank(a) && IsBlank(b)
  {
    if IsBlank(a) && IsBlank(b) {
      forall i | 0 <= i < |a + b| ensures IsJsSpace((a + b)[i]) {
        if i >= |a| {
          assert (a + b)[i] == b[i - |a|];
        }
      }
    }
    if IsBlank(a + b) {
      forall i | 0 <= i < |a| ensures IsJsSpace(a[i]) {
        assert (a + b)[i] == a[i];
      }
      forall i | 0 <= i < |b| ensures IsJsSpace(b[i]) {
        assert (a + b)[|a| + i] == b[i];
      }
    }
  }

  /** `s.replace(/c/g, v)` for one literal character `c`: the pieces
      between the occurrences of `c`, joined with `v`. */
  function ReplaceChar(s: string, c: char, v: string): string {
    JoinWith(SplitOn(s, [c]), v)
  }

  /** One step of a global replace: the first character is replaced when it
      is `c` and copied otherwise. */
  lemma ReplaceCharCons(x: char, t: string, c: char, v: string)
    ensures ReplaceChar([x] + t, c, v) == (if x == c then v else [x]) + ReplaceChar(t, c, v)
  {
    if x == c {
      SplitAtSeparator([c], t);
      JoinCons("", SplitOn(t, [c]), v);
      assert "" + v + ReplaceChar(t, c, v) == v + ReplaceChar(t, c, v);
    } else {
      SplitAtChar(x, t, [c]);
      JoinConsFirst(x, SplitOn(t, [c]), v);
    }
  }

  /** A prefix without `c` passes a global replace of `c` unchanged. */
  lemma {:induction false} ReplaceCharPrefix(p: string, t: string, c: char, v: string)
    requires c !in p
    ensures ReplaceChar(p + t, c, v) == p + ReplaceChar(t, c, v)
    decreases |p|
  {
    if |p| == 0 {
      assert p + t == t;
    } else {
      assert p[0] != c && c !in p[1..];
      assert p + t == [p[0]] + (p[1..] + t);
      ReplaceCharCons(p[0], p[1..] + t, c, v);
      ReplaceCharPrefix(p[1..], t, c, v);
      assert p == [p[0]] + p[1..];
    }
  }

  lemma {:induction false} EscapeCharsIsTwoReplaces(line: string)
    ensures EscapeChars(line) == ReplaceChar(ReplaceChar(line, '<', "&lt;"), '>', "&gt;")
    decreases |line|
  {
    if |line| > 0 {
      var x, t := line[0], line[1..];
      assert line == [x] + t;
      EscapeCharsIsTwoReplaces(t);
      ReplaceCharCons(x, t, '<', "&lt;");
      var inner := ReplaceChar(t, '<', "&lt;");
      if x == '<' {
        ReplaceCharPrefix("&lt;", inner, '>', "&gt;");
      } else {
        ReplaceCharCons(x, inner, '>', "&gt;");
      }
    }
  }

  /** The escape is the source's two global replaces, `<` first, then `>`. */
  lemma EscapeAnglesIsTwoReplaces(line: string)
    ensures EscapeAngles(line) == ReplaceChar(ReplaceChar(line, '<', "&lt;"), '>', "&gt;")
  {
    EscapeCharsIsTwoReplaces(line);
  }

  lemma {:induction false} EscapeCharsAppend(a: string, b: string)
    ensures EscapeChars(a + b) == EscapeChars(a) + EscapeChars(b)
    decreases |a|
  {
    if |a| == 0 {
      assert a + b == b;
    } else {
      assert (a + b)[0] == a[0] && (a + b)[1..] == a[1..] + b;
      EscapeCharsAppend(a[1..], b);
    }
  }

  /** The escape works character by character: it distributes over
      concatenation. */
  lemma EscapeAnglesAppend(a: string, b: string)
    ensures EscapeAngles(a + b) == EscapeAngles(a) + EscapeAngles(b)
  {
    EscapeCharsAppend(a, b);
  }

  /** The escape of one character: `<` becomes `&lt;`, `>` becomes `&gt;`,
      and every other character is kept. */
  lemma EscapeAnglesChar(c: char)
    ensures EscapeAngles("<") == "&lt;"
    ensures EscapeAngles(">") == "&gt;"
    ensures c != '<' && c != '>' ==> EscapeAngles([c]) == [c]
  {
    assert "<"[1..] == "" && ">"[1..] == "" && [c][1..] == "";
  }

  const NonBreakingSpace := "&nbsp;"
  const LineBreak := "<br/>"

  /** One line of the output: escaped, or `&nbsp;` when it is blank. */
  function RenderLine(line: string): (r: string)
    ensures '<' !in r && '>' !in r
    ensures '\n' !in line ==> '\n' !in r
    ensures IsBlank(line) ==> r == NonBreakingSpace
    ensures !IsBlank(line) ==> r == EscapeAngles(line)
    ensures !IsBlank(line) && '<' !in line && '>' !in line && '\n' !in line ==> r == line
  {
    var escaped := EscapeAngles(line);
    if IsBlank(escaped) then NonBreakingSpace else escaped
  }

  function RenderLines(lines: seq<string>): (r: seq<string>)
    ensures |r| == |lines|
    ensures forall k :: 0 <= k < |r| ==> r[k] == RenderLine(lines[k])
    decreases |lines|
  {
    if |lines| == 0 then [] else [RenderLine(lines[0])] + RenderLines(lines[1..])
  }

  // ---------------------------------------------------------------------
  // Character references in the written text

  /** How the HTML parser reads text written into `innerHTML`, restricted
      to the references `&amp;`, `&lt;` and `&gt;`: each becomes its
      character, and every other character is read as it stands. */
  function DecodeReferences(s: string): string
    decreases |s|
  {
    if |s| == 0 then ""
    else if |s| >= 5 && s[..5] == "&amp;" then "&" + DecodeReferences(s[5..])
    else if |s| >= 4 && s[..4] == "&lt;" then "<" + DecodeReferences(s[4..])
    else if |s| >= 4 && s[..4] == "&gt;" then ">" + DecodeReferences(s[4..])
    else [s[0]] + DecodeReferences(s[1..])
  }

  /** Text without `&` holds no reference and is read as it stands. */
  lemma {:induction false} DecodePlain(s: string)
    requires '&' !in s
    ensures DecodeReferences(s) == s
    decreases |s|
  {
    if |s| > 0 {
      assert s[0] != '&' && '&' !in s[1..];
      DecodePlain(s[1..]);
    }
  }

  /** The escape as written leaves `&` alone: a line holding the text
      `&lt;` is written exactly as a line holding `<`, so the exported
      document shows `<` where the editor showed `&lt;`. */
  lemma EscapeAnglesLosesReference()
    ensures EscapeAngles("&lt;") == EscapeAngles("<")
    ensures DecodeReferences(EscapeAngles("&lt;")) == "<"
  {
    EscapeAnglesChar('&');
    var s := "&lt;";
    assert s[..4] == "&lt;" && s[4..] == "";
  }

  /** The intended escape of one character: `&` as well as `<` and `>`. */
  function EscapeRefChar(c: char): string {
    if c == '&' then "&amp;" else EscapeChar(c)
  }

  function EscapeRefChars(line: string): string
    decreases |line|
  {
    if |line| == 0 then "" else EscapeRefChar(line[0]) + EscapeRefChars(line[1..])
  }

  /** The parser reads one escaped character back as that character. */
  lemma DecodeEscapedChar(c: char, rest: string)
    ensures DecodeReferences(EscapeRefChar(c) + rest) == [c] + DecodeReferences(rest)
  {
    if c == '&' {
      DecodeAmp(rest);
    } else if c == '<' || c == '>' {
      DecodeAngle(c, rest);
    } else {
      DecodeOther(c, rest);
    }
  }

  lemma DecodeAmp(rest: string)
    ensures DecodeReferences("&amp;" + rest) == "&" + DecodeReferences(rest)
  {
    var s := "&amp;" + rest;
    assert s[..5] == "&amp;" && s[5..] == rest;
  }

  /** `&lt;` and `&gt;` are read as the bracket they stand for. */
  lemma DecodeAngle(c: char, rest: string)
    requires c == '<' || c == '>'
    ensures DecodeReferences(EscapeChar(c) + rest) == [c] + DecodeReferences(rest)
  {
    var s := EscapeChar(c) + rest;
    assert s[1] == (if c == '<' then 'l' else 'g') && s[..4] == EscapeChar(c) && s[4..] == rest;
  }

  lemma DecodeOther(c: char, rest: string)
    requires c != '&'
    ensures DecodeReferences([c] + rest) == [c] + DecodeReferences(rest)
  {
    var s := [c] + rest;
    assert s[0] == c && s[1..] == rest;
  }

  lemma {:induction false} DecodeEscapedChars(line: string)
    ensures DecodeReferences(EscapeRefChars(line)) == line
    decreases |line|
  {
    if |line| > 0 {
      DecodeEscapedChar(line[0], EscapeRefChars(line[1..]));
      DecodeEscapedChars(line[1..]);
      assert line == [line[0]] + line[1..];
    }
  }

  lemma {:induction false} EscapeRefCharsPlain(line: string)
    ensures '&' !in line ==> EscapeRefChars(line) == EscapeChars(line)
    decreases |line|
  {
    if |line| > 0 && '&' !in line {
      assert line[0] != '&' && '&' !in line[1..];
      EscapeRefCharsPlain(line[1..]);
    }
  }

  /** The escape the export evidently intends: `&` becomes `&amp;` before
      `<` and `>` are escaped, so the parser reads back exactly the text. */
  function EscapeText(line: string): (r: string)
    ensures DecodeReferences(r) == line
    ensures '&' !in line ==> r == EscapeAngles(line)
  {
    DecodeEscapedChars(line);
    EscapeRefCharsPlain(line);
    EscapeRefChars(line)
  }

  /** One line of the output with the intended escape. It differs from
      `RenderLine` only on lines holding `&`, and a non-blank line is read
      back as itself. */
  function RenderLineIntended(line: string): (r: string)
    ensures IsBlank(line) ==> r == NonBreakingSpace
    ensures !IsBlank(line) ==> DecodeReferences(r) == line
    ensures '&' !in line ==> r == RenderLine(line)
  {
    EscapeTextBlank(line);
    var escaped := EscapeText(line);
    if IsBlank(escaped) then NonBreakingSpace else escaped
  }

  /** A blank string holds no `&`. */
  lemma BlankHasNoAmpersand(s: string)
    requires IsBlank(s)
    ensures '&' !in s
  {
  }

  /** The intended escape keeps blankness, as the read-back shows. */
  lemma EscapeTextBlank(line: string)
    ensures IsBlank(EscapeText(line)) <==> IsBlank(line)
  {
    if IsBlank(line) {
      BlankHasNoAmpersand(line);
    }
    if IsBlank(EscapeText(line)) {
      BlankHasNoAmpersand(EscapeText(line));
      DecodePlain(EscapeText(line));
    }
  }

  /** The markup that replaces a multi-line text: the lines split on `\n`,
      each rendered, joined with `<br/>`. */
  function BreakLines(text: string): (r: string)
  {
    JoinWith(RenderLines(SplitOn(text, "\n")), LineBreak)
  }

  /** `<br/>` holds one `<` and one `>`. */
  lemma LineBreakBrackets()
    ensures CountChar(LineBreak, '<') == 1 && CountChar(LineBreak, '>') == 1
  {
    assert LineBreak == ['<'] + "br/>";
    CountCharAbsent("br/>", '<');
    assert LineBreak == "<br/" + ['>'];
    CountCharAppend("<br/", ['>'], '>');
    CountCharAbsent("<br/", '>');
  }

  /** No raw line break survives in the markup. */
  lemma BreakLinesNoNewline(text: string)
    ensures '\n' !in BreakLines(text)
  {
    var lines := RenderLines(SplitOn(text, "\n"));
    SplitPiecesAreSeparatorFree(text, "\n");
    forall k | 0 <= k < |lines| ensures '\n' !in lines[k] {
      NoSeparatorChar(SplitOn(text, "\n")[k], '\n');
    }
    CharAbsentFromJoin(lines, LineBreak, '\n');
  }

  /** Every `<` and every `>` of the markup belongs to a `<br/>`, one per
      line break of the text, and no raw line break remains. */
  lemma BreakLinesMarkup(text: string)
    ensures CountChar(BreakLines(text), '<') == CountChar(text, '\n')
    ensures CountChar(BreakLines(text), '>') == CountChar(text, '\n')
    ensures '\n' !in BreakLines(text)
  {
    var lines := RenderLines(SplitOn(text, "\n"));
    SplitCharCount(text, '\n');
    LineBreakBrackets();
    CountCharJoin(lines, LineBreak, '<');
    CountCharJoin(lines, LineBreak, '>');
    BreakLinesNoNewline(text);
  }

  /** A string that does not contain a one-character string lacks that
      character. */
  lemma NoSeparatorChar(s: string, c: char)
    requires !Contains(s, [c])
    ensures c !in s
  {
    if c in s {
      var i :| 0 <= i < |s| && s[i] == c;
      assert OccursAt(s, [c], i);
    }
  }

  lemma RenderLinesAppend(x: seq<string>, y: seq<string>)
    ensures RenderLines(x + y) == RenderLines(x) + RenderLines(y)
  {
  }

  /** A line break in the text becomes exactly one `<br/>` between the
      renderings of the text before and after it. */
  lemma BreakLinesAround(a: string, b: string)
    ensures BreakLines(a + "\n" + b) == BreakLines(a) + LineBreak + BreakLines(b)
  {
    SplitOnAround(a, '\n', b);
    RenderLinesAppend(SplitOn(a, "\n"), SplitOn(b, "\n"));
    JoinAppend(RenderLines(SplitOn(a, "\n")), RenderLines(SplitOn(b, "\n")), LineBreak);
  }

  /** A text without line breaks renders as its one line. */
  lemma BreakLinesSingleLine(text: string)
    requires '\n' !in text
    ensures BreakLines(text) == RenderLine(text)
  {
    SplitPiecesAreSeparatorFree(text, "\n");
    SplitCharCount(text, '\n');
    CountCharAbsent(text, '\n');
    JoinSplit(text, "\n");
  }

  /** The empty text renders as one non-breaking space. */
  lemma BreakLinesEmpty()
    ensures BreakLines("") == NonBreakingSpace
  {
    assert SplitOn("", "\n") == [""];
    assert IsBlank("");
    assert RenderLines([""]) == [NonBreakingSpace];
  }

  /** A text that starts with a line break starts its markup with an
      empty line. */
  lemma BreakLinesLeadingBreak(b: string)
    ensures BreakLines("\n" + b) == NonBreakingSpace + LineBreak + BreakLines(b)
  {
    assert "" + "\n" + b == "\n" + b;
    BreakLinesAround("", b);
    BreakLinesEmpty();
  }

  /** Concatenation regrouped to the left. */
  lemma Regroup(p: string, q: string, r: string, s: string, t: string)
    ensures p + q + (r + s + t) == p + q + r + s + t
  {
  }

  /** An empty line between two line breaks survives as `&nbsp;`. */
  lemma BlankLineKept(a: string, b: string)
    ensures BreakLines(a + "\n\n" + b)
            == BreakLines(a) + LineBreak + NonBreakingSpace + LineBreak + BreakLines(b)
  {
    var nb := "\n" + b;
    assert a + "\n\n" + b == a + "\n" + nb;
    BreakLinesAround(a, nb);
    BreakLinesLeadingBreak(b);
    Regroup(BreakLines(a), LineBreak, NonBreakingSpace, LineBreak, BreakLines(b));
  }

  /** Two plain lines around an empty one: the plain lines come out as
      they are and the empty line as `&nbsp;` between two breaks. */
  lemma PlainLinesAroundBlank(a: string, b: string)
    requires !IsBlank(a) && '<' !in a && '>' !in a && '\n' !in a
    requires !IsBlank(b) && '<' !in b && '>' !in b && '\n' !in b
    ensures BreakLines(a + "\n\n" + b) == a + LineBreak + NonBreakingSpace + LineBreak + b
  {
    BlankLineKept(a, b);
    BreakLinesSingleLine(a);
    BreakLinesSingleLine(b);
  }

  const WhiteSpaceProperty := "white-space"
  const PreWrapDeclaration := "; " + WhiteSpaceProperty + ": pre-wrap;"

  /** Appends the pre-wrap declaration unless the style already mentions
      `white-space`. */
  function EnsurePreWrap(style: string): (r: string)
    ensures Contains(r, WhiteSpaceProperty)
    ensures r == style <==> Contains(style, WhiteSpaceProperty)
    ensures !Contains(style, WhiteSpaceProperty) ==> r == style + PreWrapDeclaration
    ensures style <= r
  {
    if Contains(style, WhiteSpaceProperty) then style
    else
      var r := style + PreWrapDeclaration;
      assert r == style + "; " + WhiteSpaceProperty + ": pre-wrap;";
      assert OccursAt(r, WhiteSpaceProperty, |style| + 2);
      r
  }

  /** Ensuring pre-wrap twice is ensuring it once: the declaration is never
      duplicated. */
  lemma EnsurePreWrapIdempotent(style: string)
    ensures EnsurePreWrap(EnsurePreWrap(style)) == EnsurePreWrap(style)
  {
  }

  /** What the rewrite writes into a `div`. */
  datatype DivRewrite = DivRewrite(innerHtml: string, style: string)

  /** The rewrite of one `div` given its text content, its `style` attribute
      and its number of child elements: only a leaf whose text holds a line
      break is rewritten. An absent style reads as `""`, so such a `div`
      always ends up with a style that declares `white-space`. */
  function RewriteMultilineDiv(text: string, style: Option<string>, childCount: nat): (r: Option<DivRewrite>)
    ensures r.Some? <==> '\n' in text && childCount == 0
    ensures r.Some? ==> r.value.innerHtml == BreakLines(text)
    ensures r.Some? ==> r.value.style == EnsurePreWrap(style.GetOr(""))
    ensures r.Some? ==> CountChar(r.value.innerHtml, '<') == CountChar(text, '\n') >= 1
    ensures r.Some? ==> CountChar(r.value.innerHtml, '>') == CountChar(text, '\n')
    ensures r.Some? ==> Contains(r.value.style, WhiteSpaceProperty)
    ensures r.Some? && style.Some? && Contains(style.value, WhiteSpaceProperty) ==> r.value.style == style.value
  {
    if '\n' in text && childCount == 0 then
      BreakLinesMarkup(text);
      NewlineCounted(text);
      Some(DivRewrite(BreakLines(text), EnsurePreWrap(style.GetOr(""))))
    else None
  }

  lemma NewlineCounted(text: string)
    requires '\n' in text
    ensures CountChar(text, '\n') >= 1
  {
    if text[0] != '\n' {
      NewlineCounted(text[1..]);
    }
  }

  // ---------------------------------------------------------------------
  // Global clean-ups of the serialised markup

  const EmptyClassAttribute := "class=\"\""
  const EmptyStyleAttribute := "style=\"\""

  /** `s.replace(/p/g, "")` for a literal pattern: a left-to-right scan that
      drops each occurrence and resumes after it. */
  function DeleteAll(s: string, p: string): (r: string)
    requires |p| > 0
    ensures |r| <= |s|
    decreases |s|
  {
    if |s| == 0 then ""
    else if |p| <= |s| && s[..|p|] == p then DeleteAll(s[|p|..], p)
    else [s[0]] + DeleteAll(s[1..], p)
  }

  /** The concatenation of a list of strings. */
  function Concat(parts: seq<string>): string
    decreases |parts|
  {
    if |parts| == 0 then "" else parts[0] + Concat(parts[1..])
  }

  /** Deleting every occurrence keeps exactly the pieces between the
      occurrences a split finds, and none of those pieces holds the pattern. */
  lemma {:induction false} DeleteAllKeepsPieces(s: string, p: string)
    requires |p| > 0
    ensures DeleteAll(s, p) == Concat(SplitOn(s, p))
    decreases |s|
  {
    if |s| == 0 {
    } else if |p| <= |s| && s[..|p|] == p {
      DeleteAllKeepsPieces(s[|p|..], p);
    } else {
      DeleteAllKeepsPieces(s[1..], p);
      var rest := SplitOn(s[1..], p);
      assert Concat(rest) == rest[0] + Concat(rest[1..]);
      var r := [[s[0]] + rest[0]] + rest[1..];
      assert r[1..] == rest[1..];
      assert Concat(r) == ([s[0]] + rest[0]) + Concat(rest[1..]);
    }
  }

  /** Deletion changes the markup exactly when the pattern occurs in it. */
  lemma DeleteAllUnchangedIff(s: string, p: string)
    requires |p| > 0
    ensures DeleteAll(s, p) == s <==> !Contains(s, p)
  {
    var pieces := SplitOn(s, p);
    DeleteAllKeepsPieces(s, p);
    JoinSplit(s, p);
    SplitPiecesAreSeparatorFree(s, p);
    if !Contains(s, p) {
      NoOccurrenceOnePiece(s, p);
    } else {
      assert |pieces| >= 2;
      JoinLonger(pieces, p);
      assert |DeleteAll(s, p)| < |s|;
    }
  }

  lemma {:induction false} NoOccurrenceOnePiece(s: string, p: string)
    requires |p| > 0 && !Contains(s, p)
    ensures SplitOn(s, p) == [s]
    decreases |s|
  {
    if |s| > 0 {
      assert !OccursAt(s, p, 0);
      assert !Contains(s[1..], p) by {
        forall i: nat | i <= |s[1..]| ensures !OccursAt(s[1..], p, i) {
          assert !OccursAt(s, p, i + 1);
          if i + |p| <= |s[1..]| {
            assert s[1..][i..i + |p|] == s[i + 1..i + 1 + |p|];
          }
        }
      }
      NoOccurrenceOnePiece(s[1..], p);
      assert s == [s[0]] + s[1..];
    }
  }

  /** With two or more pieces, the join with the pattern is longer than
      their plain concatenation. */
  lemma {:induction false} JoinLonger(parts: seq<string>, p: string)
    requires |parts| >= 2 && |p| > 0
    ensures |JoinWith(parts, p)| > |Concat(parts)|
    decreases |parts|
  {
    if |parts| > 2 {
      JoinLonger(parts[1..], p);
    } else {
      assert parts[1..][1..] == [];
      assert Concat(parts[1..][1..]) == "";
      assert Concat(parts[1..]) == parts[1] + "";
    }
  }

  /** `s.replace(/\s+>/g, ">")`: every maximal run of whitespace directly
      followed by `>` is dropped; other runs stay. */
  function CollapseSpaceBeforeGt(s: string): (r: string)
    ensures r == WithoutSpaceBeforeGt(s)
    ensures |r| <= |s|
    ensures |s| > 0 && !IsJsSpace(s[0]) ==> |r| > 0 && r[0] == s[0]
    ensures |s| > 0 && IsJsSpace(s[0]) ==> |r| > 0 && (r[0] == '>' || IsJsSpace(r[0]))
    ensures NoSpaceBeforeGt(r)
    decreases |s|
  {
    if |s| == 0 then ""
    else if IsJsSpace(s[0]) then
      var k := SpaceRunEnd(s, 0);
      if k < |s| && s[k] == '>' then
        var rest := CollapseSpaceBeforeGt(s[k + 1..]);
        CollapseDroppedRun(s, k, rest);
        ">" + rest
      else
        var rest := CollapseSpaceBeforeGt(s[k..]);
        CollapseCopiedRun(s, k, rest);
        s[..k] + rest
    else
      var rest := CollapseSpaceBeforeGt(s[1..]);
      CollapseOther(s, rest);
      [s[0]] + rest
  }

  /** The collapse's postcondition, for the three steps below. */
  predicate CollapseShape(s: string, r: string) {
    && r == WithoutSpaceBeforeGt(s)
    && |r| <= |s|
    && (|s| > 0 && !IsJsSpace(s[0]) ==> |r| > 0 && r[0] == s[0])
    && (|s| > 0 && IsJsSpace(s[0]) ==> |r| > 0 && (r[0] == '>' || IsJsSpace(r[0])))
    && NoSpaceBeforeGt(r)
  }

  lemma CollapseDroppedRun(s: string, k: nat, rest: string)
    requires 0 < |s| && IsJsSpace(s[0]) && k == SpaceRunEnd(s, 0) < |s| && s[k] == '>'
    requires CollapseShape(s[k + 1..], rest)
    ensures CollapseShape(s, ">" + rest)
  {
    KeptAfterDroppedRun(s, k);
    var r := ">" + rest;
    forall i | 0 < i < |r| && r[i] == '>' ensures !IsJsSpace(r[i - 1]) {
      if i > 1 {
        assert r[i] == rest[i - 1] && r[i - 1] == rest[i - 2];
      }
    }
  }

  lemma CollapseCopiedRun(s: string, k: nat, rest: string)
    requires 0 < |s| && IsJsSpace(s[0]) && k == SpaceRunEnd(s, 0) && !(k < |s| && s[k] == '>')
    requires CollapseShape(s[k..], rest)
    ensures CollapseShape(s, s[..k] + rest)
  {
    KeptCopiesRun(s, k);
    var r := s[..k] + rest;
    assert k < |s| ==> s[k..][0] == s[k] && !IsJsSpace(s[k]);
    assert forall i :: 0 <= i < k ==> r[i] == s[i];
    assert k < |s| ==> r[k] == s[k];
    forall i | 0 < i < |r| && r[i] == '>' ensures !IsJsSpace(r[i - 1]) {
      if i > k {
        assert r[i] == rest[i - k] && r[i - 1] == rest[i - k - 1];
      }
    }
  }

  lemma CollapseOther(s: string, rest: string)
    requires 0 < |s| && !IsJsSpace(s[0])
    requires CollapseShape(s[1..], rest)
    ensures CollapseShape(s, [s[0]] + rest)
  {
    KeptFirst(s);
    var r := [s[0]] + rest;
    forall i | 0 < i < |r| && r[i] == '>' ensures !IsJsSpace(r[i - 1]) {
      if i > 1 {
        assert r[i] == rest[i - 1] && r[i - 1] == rest[i - 2];
      }
    }
  }

  /** The string starts with whitespace whose run a `>` ends: `/\s+>/g`
      removes that first character. */
  predicate StartsSpaceBeforeGt(s: string)
    requires |s| > 0
  {
    IsJsSpace(s[0]) && SpaceRunEnd(s, 0) < |s| && s[SpaceRunEnd(s, 0)] == '>'
  }

  /** Reference for the collapse: each character is kept unless it is
      whitespace in a run that a `>` ends. */
  function WithoutSpaceBeforeGt(s: string): string
    decreases |s|
  {
    if |s| == 0 then "" else (if StartsSpaceBeforeGt(s) then "" else [s[0]]) + WithoutSpaceBeforeGt(s[1..])
  }

  /** A run end seen from a suffix is the same position. */
  lemma {:induction false} SpaceRunEndShift(s: string, j: nat, m: nat)
    requires j <= m <= |s|
    ensures SpaceRunEnd(s[j..], m - j) + j == SpaceRunEnd(s, m)
    decreases |s| - m
  {
    if m < |s| && IsJsSpace(s[m]) {
      assert s[j..][m - j] == s[m];
      SpaceRunEndShift(s, j, m + 1);
    }
  }

  /** A run that starts the string ends where the run of its tail ends. */
  lemma RunEndAfterFirst(s: string)
    requires |s| > 0 && IsJsSpace(s[0])
    ensures SpaceRunEnd(s[1..], 0) + 1 == SpaceRunEnd(s, 0)
  {
    SpaceRunEndShift(s, 1, 1);
  }

  /** A first character the collapse keeps begins the reference. */
  lemma KeptFirst(s: string)
    requires |s| > 0 && !StartsSpaceBeforeGt(s)
    ensures WithoutSpaceBeforeGt(s) == [s[0]] + WithoutSpaceBeforeGt(s[1..])
  {
  }

  /** A leading run followed by `>` is dropped whole. */
  lemma {:induction false} KeptSkipsRun(s: string, k: nat)
    requires 0 < k == SpaceRunEnd(s, 0) < |s| && s[k] == '>'
    ensures WithoutSpaceBeforeGt(s) == WithoutSpaceBeforeGt(s[k..])
    decreases k
  {
    RunEndAfterFirst(s);
    assert StartsSpaceBeforeGt(s);
    var t := s[1..];
    assert WithoutSpaceBeforeGt(s) == WithoutSpaceBeforeGt(t);
    if k > 1 {
      assert t[k - 1] == '>';
      KeptSkipsRun(t, k - 1);
      assert t[k - 1..] == s[k..];
    }
  }

  /** A leading run not followed by `>` is kept whole. */
  lemma {:induction false} KeptCopiesRun(s: string, k: nat)
    requires k == SpaceRunEnd(s, 0) && (k == |s| || s[k] != '>')
    ensures WithoutSpaceBeforeGt(s) == s[..k] + WithoutSpaceBeforeGt(s[k..])
    decreases k
  {
    if k == 0 {
      assert s[..0] == "" && s[0..] == s;
    } else {
      var t := s[1..];
      RunEndAfterFirst(s);
      assert !StartsSpaceBeforeGt(s);
      KeptFirst(s);
      assert k - 1 == |t| || t[k - 1] == s[k];
      KeptCopiesRun(t, k - 1);
      assert t[k - 1..] == s[k..];
      PrefixCons(s, k, WithoutSpaceBeforeGt(s), WithoutSpaceBeforeGt(t), WithoutSpaceBeforeGt(s[k..]));
    }
  }

  /** Copying the first character and then `k - 1` more copies `k`. */
  lemma PrefixCons(s: string, k: nat, x: string, y: string, w: string)
    requires 0 < k <= |s| && x == [s[0]] + y && y == s[1..][..k - 1] + w
    ensures x == s[..k] + w
  {
    assert s[..k] == [s[0]] + s[1..][..k - 1];
  }

  lemma KeptAfterDroppedRun(s: string, k: nat)
    requires 0 < |s| && IsJsSpace(s[0]) && k == SpaceRunEnd(s, 0) < |s| && s[k] == '>'
    ensures WithoutSpaceBeforeGt(s) == ">" + WithoutSpaceBeforeGt(s[k + 1..])
  {
    KeptSkipsRun(s, k);
    var t := s[k..];
    assert t[0] == '>' && t[1..] == s[k + 1..];
    KeptFirst(t);
  }

  /** The end of the whitespace run starting at `i`. */
  function SpaceRunEnd(s: string, i: nat): (k: nat)
    requires i <= |s|
    ensures i <= k <= |s|
    ensures forall m :: i <= m < k ==> IsJsSpace(s[m])
    ensures k == |s| || !IsJsSpace(s[k])
    decreases |s| - i
  {
    if i == |s| || !IsJsSpace(s[i]) then i else SpaceRunEnd(s, i + 1)
  }

  /** No whitespace character stands directly before a `>`. */
  predicate NoSpaceBeforeGt(s: string) {
    forall i :: 0 < i < |s| && s[i] == '>' ==> !IsJsSpace(s[i - 1])
  }

  /** The non-whitespace characters of a string, in order. */
  function NonSpace(s: string): (r: string)
    ensures |r| <= |s|
    decreases |s|
  {
    if |s| == 0 then "" else (if IsJsSpace(s[0]) then "" else [s[0]]) + NonSpace(s[1..])
  }

  lemma {:induction false} NonSpaceAppend(a: string, b: string)
    ensures NonSpace(a + b) == NonSpace(a) + NonSpace(b)
    decreases |a|
  {
    if |a| == 0 {
      assert a + b == b;
    } else {
      assert (a + b)[1..] == a[1..] + b;
      NonSpaceAppend(a[1..], b);
    }
  }

  lemma {:induction false} NonSpaceOfBlank(s: string)
    requires IsBlank(s)
    ensures NonSpace(s) == ""
    decreases |s|
  {
    if |s| > 0 {
      NonSpaceOfBlank(s[1..]);
    }
  }

  /** The collapse removes whitespace only: every other character survives,
      in order. */
  lemma {:induction false} CollapseRemovesOnlySpace(s: string)
    ensures NonSpace(CollapseSpaceBeforeGt(s)) == NonSpace(s)
    decreases |s|
  {
    if |s| > 0 {
      if IsJsSpace(s[0]) {
        var k := SpaceRunEnd(s, 0);
        assert s == s[..k] + s[k..];
        NonSpaceAppend(s[..k], s[k..]);
        NonSpaceOfBlank(s[..k]);
        if k < |s| && s[k] == '>' {
          CollapseRemovesOnlySpace(s[k + 1..]);
          assert s[k..] == ">" + s[k + 1..];
          NonSpaceAppend(">", s[k + 1..]);
          NonSpaceAppend(">", CollapseSpaceBeforeGt(s[k + 1..]));
        } else {
          CollapseRemovesOnlySpace(s[k..]);
          NonSpaceAppend(s[..k], CollapseSpaceBeforeGt(s[k..]));
        }
      } else {
        CollapseRemovesOnlySpace(s[1..]);
        assert s == [s[0]] + s[1..];
        NonSpaceAppend([s[0]], s[1..]);
        NonSpaceAppend([s[0]], CollapseSpaceBeforeGt(s[1..]));
      }
    }
  }

  /** The collapse changes nothing exactly when no whitespace stands before
      a `>`. */
  lemma CollapseUnchangedIff(s: string)
    ensures CollapseSpaceBeforeGt(s) == s <==> NoSpaceBeforeGt(s)
  {
    if NoSpaceBeforeGt(s) {
      CollapseIdentity(s);
    }
  }

  lemma {:induction false} CollapseIdentity(s: string)
    requires NoSpaceBeforeGt(s)
    ensures CollapseSpaceBeforeGt(s) == s
    decreases |s|
  {
    if |s| > 0 {
      assert NoSpaceBeforeGt(s[1..]) by {
        forall i | 0 < i < |s[1..]| && s[1..][i] == '>' ensures !IsJsSpace(s[1..][i - 1]) {
          assert s[i + 1] == '>';
        }
      }
      if IsJsSpace(s[0]) {
        var k := SpaceRunEnd(s, 0);
        assert k == |s| || s[k] != '>' by {
          if k < |s| {
            assert IsJsSpace(s[k - 1]);
          }
        }
        assert NoSpaceBeforeGt(s[k..]) by {
          forall i | 0 < i < |s[k..]| && s[k..][i] == '>' ensures !IsJsSpace(s[k..][i - 1]) {
            assert s[k + i] == '>';
          }
        }
        CollapseIdentity(s[k..]);
        assert s == s[..k] + s[k..];
      } else {
        CollapseIdentity(s[1..]);
        assert s == [s[0]] + s[1..];
      }
    }
  }

  /** Collapsing twice is collapsing once. */
  lemma CollapseIdempotent(s: string)
    ensures CollapseSpaceBeforeGt(CollapseSpaceBeforeGt(s)) == CollapseSpaceBeforeGt(s)
  {
    CollapseIdentity(CollapseSpaceBeforeGt(s));
  }

  /** The three clean-ups, in the source's order: the pieces between the
      empty `class` attributes, then the pieces of that between the empty
      `style` attributes, then the whitespace collapse. */
  function CleanMarkup(markup: string): (r: string)
    ensures r == WithoutSpaceBeforeGt(Concat(SplitOn(Concat(SplitOn(markup, EmptyClassAttribute)), EmptyStyleAttribute)))
    ensures NoSpaceBeforeGt(r)
    ensures NonSpace(r) == NonSpace(DeleteAll(DeleteAll(markup, EmptyClassAttribute), EmptyStyleAttribute))
  {
    var withoutEmptyClass := DeleteAll(markup, EmptyClassAttribute);
    var withoutEmptyAttributes := DeleteAll(withoutEmptyClass, EmptyStyleAttribute);
    DeleteAllKeepsPieces(markup, EmptyClassAttribute);
    DeleteAllKeepsPieces(withoutEmptyClass, EmptyStyleAttribute);
    CollapseRemovesOnlySpace(withoutEmptyAttributes);
    CollapseSpaceBeforeGt(withoutEmptyAttributes)
  }

  /** Markup that is already clean passes through unchanged. */
  lemma CleanMarkupIdentity(markup: string)
    requires !Contains(markup, EmptyClassAttribute)
    requires !Contains(markup, EmptyStyleAttribute)
    requires NoSpaceBeforeGt(markup)
    ensures CleanMarkup(markup) == markup
  {
    DeleteAllUnchangedIff(markup, EmptyClassAttribute);
    DeleteAllUnchangedIff(markup, EmptyStyleAttribute);
    CollapseIdentity(markup);
  }

  // ---------------------------------------------------------------------
  // The document shell

  const ShellLead := "\n  "
  const DocType := "<!DOCTYPE html PUBLIC \"-//W3C//DTD XHTML 1.0 Strict//EN\" \"http://www.w3.org/TR/xhtml1/DTD/xhtml1-strict.dtd\">"

  /** Everything of the shell after the doctype, up to and including the
      opening of the container `div` and the indentation of its content. */
  const ShellHead := @"
  <html xmlns=""http://www.w3.org/1999/xhtml"">
  <head>
    <meta http-equiv=""Content-Type"" content=""text/html; charset=utf-8"" />
    <meta name=""viewport"" content=""width=device-width"" />
    <link href=""https://fonts.googleapis.com/css?family=Roboto"" rel=""stylesheet"" type=""text/css"">
    <style type=""text/css"">
      * {
        margin: 0;
        padding: 0;
        font-size: 100%;
        font-family: 'Roboto', Arial, sans-serif;
      }
      body {
        width: 100% !important;
        height: 100%;
        background: #f8f8f8;
        color: #000000;
        line-height: 1.5;
      }
      table {
        border-spacing: 0;
        border-collapse: collapse;
        width: 100%;
      }
      td {
        padding: 0;
        vertical-align: top;
      }
      img {
        max-width: 100%;
        margin: 0 auto;
        display: block;
      }
      a {
        color: #0c7bbf;
        text-decoration: none;
      }
      a:hover {
        text-decoration: underline;
      }
      .container {
        max-width: 600px;
        margin: 0 auto;
      }
      .content {
        background-color: #ffffff;
      }
      .header {
        background-color: #ffffff;
      }
      .footer {
        background-color: #0c7bbf;
        color: #ffffff;
      }
      .button {
        display: inline-block;
        color: white;
        background: #0c7bbf;
        border: none;
        padding: 10px 20px;
        font-weight: bold;
        border-radius: 4px;
        text-decoration: none;
      }
      .button:hover {
        text-decoration: none;
      }
      @media only screen and (max-width: 620px) {
        .container {
          width: 100% !important;
        }
      }
    </style>
  </head>
  <body>
    <div class=""container"">
      "

  const ShellTail := @"
    </div>
  </body>
  </html>
  "

  const ShellOpen := ShellLead + DocType + ShellHead

  /** `markup` between an opening and a closing text. */
  function Enclose(open: string, markup: string, close: string): string {
    open + markup + close
  }

  /** The text between `open` and `close`, if `doc` starts and ends with
      them without overlap. */
  function Disclose(open: string, doc: string, close: string): Option<string> {
    if |doc| >= |open| + |close| && doc[..|open|] == open && doc[|doc| - |close|..] == close
    then Some(doc[|open|..|doc| - |close|])
    else None
  }

  lemma DiscloseIffEnclose(open: string, doc: string, markup: string, close: string)
    ensures Disclose(open, doc, close) == Some(markup) <==> doc == Enclose(open, markup, close)
  {
    var r := open + markup + close;
    assert r[..|open|] == open;
    assert r[|r| - |close|..] == close;
    assert r[|open|..|r| - |close|] == markup;
    if Disclose(open, doc, close) == Some(markup) {
      assert doc == doc[..|open|] + doc[|open|..|doc| - |close|] + doc[|doc| - |close|..];
    }
  }

  /** The markup placed inside the container of the fixed document. */
  function WrapDocument(markup: string): (r: string)
    ensures UnwrapDocument(r) == Some(markup)
  {
    DiscloseIffEnclose(ShellOpen, Enclose(ShellOpen, markup, ShellTail), markup, ShellTail);
    Enclose(ShellOpen, markup, ShellTail)
  }

  /** Recovers the markup from a document built by `WrapDocument`. */
  function UnwrapDocument(doc: string): Option<string> {
    Disclose(ShellOpen, doc, ShellTail)
  }

  /** A document unwraps to some markup exactly when it is that markup in
      the shell: the markup is spliced in once, whole, at one place. */
  lemma UnwrapIffWrap(doc: string, markup: string)
    ensures UnwrapDocument(doc) == Some(markup) <==> doc == WrapDocument(markup)
  {
    DiscloseIffEnclose(ShellOpen, doc, markup, ShellTail);
  }

  /** Every exported document starts with a line break, two spaces and the
      strict XHTML doctype. */
  lemma DocTypeFirst(markup: string)
    ensures WrapDocument(markup)[..|ShellLead + DocType|] == ShellLead + DocType
  {
    PrefixKept(ShellLead + DocType, ShellHead, markup, ShellTail);
  }

  lemma PrefixKept(x: string, y: string, m: string, t: string)
    ensures Enclose(x + y, m, t)[..|x|] == x
  {
    assert Enclose(x + y, m, t) == x + (y + m + t);
  }

  /** The string part of the export: clean the serialised preview, then
      place it in the shell. */
  function ExportHtml(previewMarkup: string): (r: string)
    ensures UnwrapDocument(r) == Some(CleanMarkup(previewMarkup))
    ensures NoSpaceBeforeGt(UnwrapDocument(r).value)
  {
    WrapDocument(CleanMarkup(previewMarkup))
  }
}
