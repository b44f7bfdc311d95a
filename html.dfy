/**
 * HTML text helpers of the viewer: `escapeHtml` (viewer/viewer.js:204-212) and the
 * newline-to-`<br>` rewrite applied to reader blocks (viewer/viewer.js:77), together with
 * the decoder a browser applies when it shows such markup as text.
 */
module Html {

  /** `s.replace(/c/g, rep)`: every occurrence of the character `c` replaced by `rep`. */
  function ReplaceAll(s: string, c: char, rep: string): (r: string)
    ensures forall x :: x in r ==> x in rep || (x in s && x != c)
  {
    if s == [] then []
    else (if s[0] == c then rep else [s[0]]) + ReplaceAll(s[1..], c, rep)
  }

  lemma {:induction false} ReplaceAllAppend(a: string, b: string, c: char, rep: string)
    ensures ReplaceAll(a + b, c, rep) == ReplaceAll(a, c, rep) + ReplaceAll(b, c, rep)
  {
    if a == [] {
      assert a + b == b;
    } else {
      assert (a + b)[0] == a[0] && (a + b)[1..] == a[1..] + b;
      ReplaceAllAppend(a[1..], b, c, rep);
    }
  }

  lemma ReplaceAllSingle(x: char, c: char, rep: string)
    ensures ReplaceAll([x], c, rep) == if x == c then rep else [x]
  {
    assert [x][1..] == [];
  }

  lemma {:induction false} ReplaceAllAbsent(s: string, c: char, rep: string)
    requires c !in s
    ensures ReplaceAll(s, c, rep) == s
  {
    if s != [] {
      ReplaceAllAbsent(s[1..], c, rep);
    }
  }

  /** The five `.replace` passes of `escapeHtml`, ampersand first. */
  function EscapePasses(s: string): (r: string)
    ensures s == [] ==> r == []
    ensures forall x :: x in r ==> !IsMarkupChar(x)
  {
    var amp := ReplaceAll(s, '&', "&amp;");
    var lt := ReplaceAll(amp, '<', "&lt;");
    var gt := ReplaceAll(lt, '>', "&gt;");
    var quot := ReplaceAll(gt, '"', "&quot;");
    ReplaceAll(quot, '\'', "&#039;")
  }

  /** The characters that could start markup or end an attribute value. */
  predicate IsMarkupChar(x: char)
  {
    x == '<' || x == '>' || x == '"' || x == '\''
  }

  /** `escapeHtml(text)`: a falsy (empty) text gives `''`, otherwise the five passes. */
  function EscapeHtml(text: string): (r: string)
    ensures text == "" ==> r == ""
    ensures forall x :: x in r ==> !IsMarkupChar(x)
  {
    if text == "" then "" else EscapePasses(text)
  }

  /** The entity a single character is escaped to: the reference definition of `escapeHtml`. */
  function EscapeChar(x: char): string
  {
    match x
    case '&' => "&amp;"
    case '<' => "&lt;"
    case '>' => "&gt;"
    case '"' => "&quot;"
    case '\'' => "&#039;"
    case _ => [x]
  }

  /** Every character escaped on its own, left to right. */
  function EscapeEach(s: string): string
  {
    if s == [] then [] else EscapeChar(s[0]) + EscapeEach(s[1..])
  }

  lemma {:induction false} EscapePassesAppend(a: string, b: string)
    ensures EscapePasses(a + b) == EscapePasses(a) + EscapePasses(b)
  {
    var amp1, amp2 := ReplaceAll(a, '&', "&amp;"), ReplaceAll(b, '&', "&amp;");
    ReplaceAllAppend(a, b, '&', "&amp;");
    var lt1, lt2 := ReplaceAll(amp1, '<', "&lt;"), ReplaceAll(amp2, '<', "&lt;");
    ReplaceAllAppend(amp1, amp2, '<', "&lt;");
    var gt1, gt2 := ReplaceAll(lt1, '>', "&gt;"), ReplaceAll(lt2, '>', "&gt;");
    ReplaceAllAppend(lt1, lt2, '>', "&gt;");
    var q1, q2 := ReplaceAll(gt1, '"', "&quot;"), ReplaceAll(gt2, '"', "&quot;");
    ReplaceAllAppend(gt1, gt2, '"', "&quot;");
    ReplaceAllAppend(q1, q2, '\'', "&#039;");
  }

  /** Because `&` is replaced first, the entities introduced by one pass are left alone by the later ones. */
  lemma EscapePassesChar(x: char)
    ensures EscapePasses([x]) == EscapeChar(x)
  {
    var amp := ReplaceAll([x], '&', "&amp;");
    ReplaceAllSingle(x, '&', "&amp;");
    if x == '&' {
      LaterPassesKeep("&amp;");
    } else if IsMarkupChar(x) {
      LaterPassesEscape(x);
    } else {
      LaterPassesKeep([x]);
    }
  }

  /** The four passes after the `&` pass. */
  function LaterPasses(t: string): string
  {
    ReplaceAll(ReplaceAll(ReplaceAll(ReplaceAll(t, '<', "&lt;"), '>', "&gt;"), '"', "&quot;"), '\'', "&#039;")
  }

  /** After the `&` pass has left a markup character alone, exactly one later pass escapes it. */
  lemma LaterPassesEscape(x: char)
    requires IsMarkupChar(x)
    ensures LaterPasses([x]) == EscapeChar(x)
  {
    match x
    case '<' => EscapeLessThan();
    case '>' => EscapeGreaterThan();
    case '"' => EscapeQuote();
    case '\'' => EscapeApostrophe();
  }

  lemma EscapeLessThan()
    ensures LaterPasses("<") == "&lt;"
  {
    var lt := "&lt;";
    ReplaceAllSingle('<', '<', lt);
    assert '>' !in lt && '"' !in lt && '\'' !in lt;
    ReplaceAllAbsent(lt, '>', "&gt;");
    QuotePassesKeep(lt);
  }

  lemma EscapeGreaterThan()
    ensures LaterPasses(">") == "&gt;"
  {
    ReplaceAllSingle('>', '<', "&lt;");
    ReplaceAllSingle('>', '>', "&gt;");
    QuotePassesKeep("&gt;");
  }

  lemma EscapeQuote()
    ensures LaterPasses("\"") == "&quot;"
  {
    ReplaceAllSingle('"', '<', "&lt;");
    ReplaceAllSingle('"', '>', "&gt;");
    ReplaceAllSingle('"', '"', "&quot;");
    ReplaceAllAbsent("&quot;", '\'', "&#039;");
  }

  lemma EscapeApostrophe()
    ensures LaterPasses("'") == "&#039;"
  {
    ReplaceAllSingle('\'', '<', "&lt;");
    ReplaceAllSingle('\'', '>', "&gt;");
    ReplaceAllSingle('\'', '"', "&quot;");
    ReplaceAllSingle('\'', '\'', "&#039;");
  }

  /** The two quote passes leave a text without quotes alone. */
  lemma QuotePassesKeep(t: string)
    requires '"' !in t && '\'' !in t
    ensures ReplaceAll(ReplaceAll(t, '"', "&quot;"), '\'', "&#039;") == t
  {
    ReplaceAllAbsent(t, '"', "&quot;");
    ReplaceAllAbsent(t, '\'', "&#039;");
  }

  /** The passes after the first leave a text without markup characters alone. */
  lemma LaterPassesKeep(t: string)
    requires forall x :: x in t ==> !IsMarkupChar(x)
    ensures LaterPasses(t) == t
  {
    ReplaceAllAbsent(t, '<', "&lt;");
    ReplaceAllAbsent(t, '>', "&gt;");
    QuotePassesKeep(t);
  }

  /** The chained `.replace` calls agree with escaping character by character. */
  lemma {:induction false} EscapeHtmlPerChar(s: string)
    ensures EscapeHtml(s) == EscapeEach(s)
  {
    if s != [] {
      assert s == [s[0]] + s[1..];
      EscapePassesAppend([s[0]], s[1..]);
      EscapePassesChar(s[0]);
      EscapeHtmlPerChar(s[1..]);
      if s[1..] == [] {
        assert EscapePasses([]) == [];
      }
    }
  }

  /**
   * What a browser shows for a piece of markup made of text, the five entities `escapeHtml`
   * produces and `<br>` elements: each entity as its character, `<br>` as a line break.
   */
  function DecodeHtml(h: string): string
    decreases |h|
  {
    if h == [] then []
    else if "&amp;" <= h then "&" + DecodeHtml(h[5..])
    else if "&lt;" <= h then "<" + DecodeHtml(h[4..])
    else if "&gt;" <= h then ">" + DecodeHtml(h[4..])
    else if "&quot;" <= h then "\"" + DecodeHtml(h[6..])
    else if "&#039;" <= h then "'" + DecodeHtml(h[6..])
    else if "<br>" <= h then "\n" + DecodeHtml(h[4..])
    else [h[0]] + DecodeHtml(h[1..])
  }

  /** The markup of one reader character: a newline becomes `<br>`, anything else is escaped. */
  function BlockChar(x: char): string
  {
    if x == '\n' then "<br>" else EscapeChar(x)
  }

  function BlockEach(s: string): string
  {
    if s == [] then [] else BlockChar(s[0]) + BlockEach(s[1..])
  }

  lemma DecodeEscapeChar(x: char, rest: string)
    ensures DecodeHtml(EscapeChar(x) + rest) == [x] + DecodeHtml(rest)
  {
    var e := EscapeChar(x) + rest;
    if x in "&<>\"'" {
      assert e[0] == '&' && e[1] == EscapeChar(x)[1] && e[2] == EscapeChar(x)[2];
    }
    match x
    case '&' => assert "&amp;" <= e && e[5..] == rest;
    case '<' => assert !("&amp;" <= e) && "&lt;" <= e && e[4..] == rest;
    case '>' => assert !("&amp;" <= e) && !("&lt;" <= e) && "&gt;" <= e && e[4..] == rest;
    case '"' =>
      assert !("&amp;" <= e) && !("&lt;" <= e) && !("&gt;" <= e);
      assert "&quot;" <= e && e[6..] == rest;
    case '\'' =>
      assert !("&amp;" <= e) && !("&lt;" <= e) && !("&gt;" <= e) && !("&quot;" <= e);
      assert "&#039;" <= e && e[6..] == rest;
    case _ =>
      assert e[0] == x && e[1..] == rest;
      assert !("&amp;" <= e) && !("&lt;" <= e) && !("&gt;" <= e);
      assert !("&quot;" <= e) && !("&#039;" <= e) && !("<br>" <= e);
  }

  lemma DecodeBlockChar(x: char, rest: string)
    ensures DecodeHtml(BlockChar(x) + rest) == [x] + DecodeHtml(rest)
  {
    if x == '\n' {
      var b := BlockChar(x) + rest;
      assert b[0] == '<' && "<br>" <= b && b[4..] == rest;
    } else {
      DecodeEscapeChar(x, rest);
    }
  }

  /** Decoding undoes escaping exactly: no character is lost or escaped twice. */
  lemma {:induction false} DecodeEscapeEach(s: string)
    ensures DecodeHtml(EscapeEach(s)) == s
  {
    if s != [] {
      DecodeEscapeChar(s[0], EscapeEach(s[1..]));
      DecodeEscapeEach(s[1..]);
    }
  }

  /** `escapeHtml` is undone by a standard entity decoder. */
  lemma EscapeHtmlRoundTrip(s: string)
    ensures DecodeHtml(EscapeHtml(s)) == s
  {
    EscapeHtmlPerChar(s);
    DecodeEscapeEach(s);
  }

  /** The markup of one reader block: the content escaped, then every newline turned into `<br>`. */
  function ReaderBlock(content: string): (r: string)
    ensures '\n' !in r
  {
    ReplaceAll(EscapeHtml(content), '\n', "<br>")
  }

  lemma {:induction false} BreakLinesEach(s: string)
    ensures ReplaceAll(EscapeEach(s), '\n', "<br>") == BlockEach(s)
  {
    if s != [] {
      ReplaceAllAppend(EscapeChar(s[0]), EscapeEach(s[1..]), '\n', "<br>");
      if s[0] == '\n' {
        assert ReplaceAll(EscapeChar(s[0]), '\n', "<br>") == "<br>";
      } else {
        ReplaceAllAbsent(EscapeChar(s[0]), '\n', "<br>");
      }
      BreakLinesEach(s[1..]);
    }
  }

  lemma {:induction false} DecodeBlockEach(s: string)
    ensures DecodeHtml(BlockEach(s)) == s
  {
    if s != [] {
      DecodeBlockChar(s[0], BlockEach(s[1..]));
      DecodeBlockEach(s[1..]);
    }
  }

  /** Every `<` and every `>` of `r` belongs to a `<br>` tag: the only markup `r` holds. */
  predicate BreakTagsOnly(r: string)
  {
    && (forall i :: 0 <= i < |r| && r[i] == '<' ==> i + 4 <= |r| && r[i..i + 4] == "<br>")
    && (forall i :: 0 <= i < |r| && r[i] == '>' ==> 3 <= i && r[i - 3..i + 1] == "<br>")
  }

  lemma BreakTagsAppend(a: string, b: string)
    requires BreakTagsOnly(a) && BreakTagsOnly(b)
    ensures BreakTagsOnly(a + b)
  {
    var r := a + b;
    forall i | 0 <= i < |r| && r[i] == '<'
      ensures i + 4 <= |r| && r[i..i + 4] == "<br>"
    {
      if i < |a| {
        assert a[i] == '<' && r[i..i + 4] == a[i..i + 4];
      } else {
        assert b[i - |a|] == '<' && r[i..i + 4] == b[i - |a|..i - |a| + 4];
      }
    }
    forall i | 0 <= i < |r| && r[i] == '>'
      ensures 3 <= i && r[i - 3..i + 1] == "<br>"
    {
      if i < |a| {
        assert a[i] == '>' && r[i - 3..i + 1] == a[i - 3..i + 1];
      } else {
        assert b[i - |a|] == '>' && r[i - 3..i + 1] == b[i - |a| - 3..i - |a| + 1];
      }
    }
  }

  lemma BreakTagsChar(x: char)
    ensures BreakTagsOnly(BlockChar(x))
  {
    if x == '\n' {
      var r := BlockChar(x);
      assert r == "<br>";
      assert forall i :: 0 <= i < |r| && r[i] == '<' ==> i == 0;
      assert forall i :: 0 <= i < |r| && r[i] == '>' ==> i == 3;
    } else {
      assert '<' !in EscapeChar(x) && '>' !in EscapeChar(x);
    }
  }

  lemma {:induction false} BreakTagsEach(s: string)
    ensures BreakTagsOnly(BlockEach(s))
  {
    if s != [] {
      BreakTagsChar(s[0]);
      BreakTagsEach(s[1..]);
      BreakTagsAppend(BlockChar(s[0]), BlockEach(s[1..]));
    }
  }

  /** A reader block shows its content exactly, line breaks included, and holds no markup but `<br>`. */
  lemma ReaderBlockShowsContent(content: string)
    ensures DecodeHtml(ReaderBlock(content)) == content
    ensures BreakTagsOnly(ReaderBlock(content))
    ensures forall x :: x in ReaderBlock(content) && IsMarkupChar(x) ==> x == '<' || x == '>'
  {
    EscapeHtmlPerChar(content);
    BreakLinesEach(content);
    DecodeBlockEach(content);
    BreakTagsEach(content);
  }
}
