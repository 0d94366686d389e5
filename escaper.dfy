/**
 * `parse_text` of the ChatGLM3 demos: turns chat text into an HTML fragment for
 * the chat widget. The text is split into lines, one empty framing line is
 * dropped at each end, Markdown fence lines (those containing three backticks)
 * alternate between an opening `<pre><code class="language-…">` tag and a
 * closing `</code></pre>` tag, and every other line is right-trimmed, escaped
 * by a fixed chain of replacements and followed by `<br/>` unless it is last.
 */
module Escaper {
  import opened Strings

  /** The replacement chain, in the order the source applies it; `&` is first. */
  function HtmlRules(): seq<Rule> {
    [
    Rule('&', "&amp;"), Rule('<', "&lt;"), Rule('>', "&gt;"), Rule(' ', "&nbsp;"),
    Rule('"', "&quot;"), Rule('`', "\\`"), Rule('*', "&ast;"), Rule('_', "&lowbar;"),
    Rule('-', "&#45;"), Rule('.', "&#46;"), Rule('!', "&#33;"), Rule('(', "&#40;"),
    Rule(')', "&#41;"), Rule('$', "&#36;"), Rule('\'', "&#x27;"), Rule('/', "&#x2F;")
    ]
  }

  /** Characters that never survive escaping. */
  const Escaped: string := "<> \"*_-.!()$'/"

  const Fence: string := "```"
  const CloseTag: string := "</code></pre>"
  const LineBreak: string := "<br/>"

  /** The chained `.replace` calls applied to a text line. */
  function Escape(s: string): string {
    ApplyRules(s, HtmlRules())
  }

  predicate IsFence(line: string) {
    Contains(line, Fence)
  }

  function OpenTag(language: string): string {
    "<pre><code class=\"language-" + language + "\">"
  }

  /** What a fence line becomes: `items` is the right-trimmed line split on
      single backticks; an opening fence names the language after the last
      backtick, a closing fence keeps what stood before the first one. */
  function FenceLine(line: string, opening: bool): string {
    var items := Split(RStrip(line), '`');
    if opening then OpenTag(Strip(items[|items| - 1])) else Strip(items[0]) + CloseTag
  }

  /** What any other line becomes. */
  function TextLine(line: string, last: bool): string {
    var escaped := Escape(RStrip(line));
    if last then escaped else escaped + LineBreak
  }

  /** The two framing checks on the split lines: a first empty line, then a
      last empty line, are removed. */
  function DropFraming(lines: seq<string>): seq<string> {
    var trimmed := if |lines| > 0 && lines[0] == "" then lines[1..] else lines;
    if |trimmed| > 0 && trimmed[|trimmed| - 1] == "" then trimmed[..|trimmed| - 1] else trimmed
  }

  /** Number of fence lines in `lines`. */
  function FenceCount(lines: seq<string>): nat
    decreases |lines|
  {
    if lines == [] then 0 else FenceCount(lines[..|lines| - 1]) + (if IsFence(lines[|lines| - 1]) then 1 else 0)
  }

  /** Line `i` of the output: the k-th fence line opens a code block when k is
      odd and closes it when k is even; any other line is escaped and gets
      `<br/>` unless it is the last line. */
  function RenderLine(lines: seq<string>, i: nat): string
    requires i < |lines|
  {
    if IsFence(lines[i]) then FenceLine(lines[i], FenceCount(lines[..i + 1]) % 2 == 1)
    else TextLine(lines[i], i + 1 == |lines|)
  }

  function RenderLines(lines: seq<string>): (out: seq<string>)
    ensures |out| == |lines|
    ensures forall i :: 0 <= i < |lines| ==> out[i] == RenderLine(lines, i)
  {
    seq(|lines|, i requires 0 <= i < |lines| => RenderLine(lines, i))
  }

  /** The whole of `parse_text`. */
  function Render(text: string): string {
    Concat(RenderLines(DropFraming(Split(text, '\n'))))
  }

  /** `parse_text`: split the text into lines, drop one empty framing line
      at each end, rewrite the lines and join them. */
  method ParseText(text: string) returns (html: string)
    ensures html == Render(text)
  {
    var lines := Split(text, '\n');
    if |lines| > 0 && lines[0] == "" {
      lines := lines[1..];
    }
    if |lines| > 0 && lines[|lines| - 1] == "" {
      lines := lines[..|lines| - 1];
    }
    assert lines == DropFraming(Split(text, '\n'));
    lines := RewriteLines(lines);
    html := Concat(lines);
  }

  /** The loop of `parse_text`: rewrites each line in place while it flips the
      code-block toggle at every fence line. */
  method RewriteLines(original: seq<string>) returns (lines: seq<string>)
    ensures lines == RenderLines(original)
  {
    lines := original;
    var inCodeBlock := false;
    for i := 0 to |lines|
      invariant |lines| == |original|
      invariant forall k :: i <= k < |lines| ==> lines[k] == original[k]
      invariant forall k :: 0 <= k < i ==> lines[k] == RenderLine(original, k)
      invariant inCodeBlock == (FenceCount(original[..i]) % 2 == 1)
    {
      var rendered;
      rendered, inCodeBlock := RewriteLine(original, i, inCodeBlock);
      lines := lines[i := rendered];
    }
  }

  /** The body of that loop for line `i`, given the toggle before it: the line
      it writes and the toggle after it. */
  method RewriteLine(lines: seq<string>, i: nat, inCodeBlock: bool) returns (rendered: string, toggled: bool)
    requires i < |lines| && inCodeBlock == (FenceCount(lines[..i]) % 2 == 1)
    ensures rendered == RenderLine(lines, i)
    ensures toggled == (FenceCount(lines[..i + 1]) % 2 == 1)
  {
    var line := lines[i];
    RenderLineStep(lines, i, inCodeBlock);
    toggled := inCodeBlock;
    if IsFence(line) {
      toggled := !toggled;
      rendered := FenceLine(line, toggled);
    } else {
      rendered := TextLine(line, i + 1 == |lines|);
    }
  }

  /** One step of the loop: with the toggle equal to the parity of the fences
      seen so far, the source's branch produces line `i` of the output and
      leaves the toggle equal to the parity one line further on. */
  lemma {:induction false} RenderLineStep(lines: seq<string>, i: nat, inBlock: bool)
    requires i < |lines|
    requires inBlock == (FenceCount(lines[..i]) % 2 == 1)
    ensures IsFence(lines[i]) ==>
      RenderLine(lines, i) == FenceLine(lines[i], !inBlock) && (!inBlock == (FenceCount(lines[..i + 1]) % 2 == 1))
    ensures !IsFence(lines[i]) ==>
      RenderLine(lines, i) == TextLine(lines[i], i + 1 == |lines|) && (inBlock == (FenceCount(lines[..i + 1]) % 2 == 1))
  {
    FenceCountSnoc(lines, i);
    var n := FenceCount(lines[..i]);
    Parity(n);
    if IsFence(lines[i]) {
      assert FenceCount(lines[..i + 1]) == n + 1;
      assert (FenceCount(lines[..i + 1]) % 2 == 1) == !inBlock;
    } else {
      assert FenceCount(lines[..i + 1]) == n;
    }
  }

  lemma {:induction false} FenceCountSnoc(lines: seq<string>, i: nat)
    requires i < |lines|
    ensures FenceCount(lines[..i + 1]) == FenceCount(lines[..i]) + (if IsFence(lines[i]) then 1 else 0)
  {
    assert lines[..i + 1][..i] == lines[..i];
  }

  lemma {:induction false} Parity(n: nat)
    ensures ((n + 1) % 2 == 1) == !(n % 2 == 1)
  {
  }

  /** The characters entities are written with. */
  predicate EntityChar(c: char) {
    c == '&' || c == '#' || c == ';' || c == '\\' || c == '`' || c == 'F'
    || ('a' <= c <= 'z') || ('0' <= c <= '9')
  }

  lemma EntityAlphabet(i: nat)
    requires i < |HtmlRules()|
    ensures forall c :: c in HtmlRules()[i].entity ==> EntityChar(c) && (i < 5 ==> c != '`')
  {
  }

  lemma TargetOutside(j: nat)
    requires 1 <= j < |HtmlRules()| && j != 5
    ensures !EntityChar(HtmlRules()[j].target)
  {
  }

  /** The chain never rewrites what an earlier rule produced: in particular `&`
      is escaped first, so the `&` of every entity stays as it is. */
  lemma HtmlRulesNoReescape()
    ensures NoReescape(HtmlRules())
  {
    var rules := HtmlRules();
    forall i, j | 0 <= i < j < |rules| ensures rules[j].target !in rules[i].entity {
      EntityAlphabet(i);
      if j != 5 {
        TargetOutside(j);
      }
    }
  }

  /** The chain of `.replace` calls is the single pass that maps every character
      to its entity, so no entity text is ever escaped a second time. */
  lemma EscapeSinglePass(s: string)
    ensures Escape(s) == Charwise(s, HtmlRules())
  {
    HtmlRulesNoReescape();
    ApplyRulesCharwise(s, HtmlRules());
  }

  /** None of `< > space " * _ - . ! ( ) $ ' /` survives escaping. */
  lemma EscapeSafe(s: string, c: char)
    requires c in Escaped
    ensures c !in Escape(s)
  {
    EscapeSinglePass(s);
    EscapedIsTarget(c);
    EscapedNotInEntities(c);
    CharwiseAvoids(s, HtmlRules(), c);
  }

  lemma EscapedIsTarget(c: char)
    requires c in Escaped
    ensures c in Targets(HtmlRules())
  {
    var k :| 0 <= k < |Escaped| && Escaped[k] == c;
    // the backtick rule sits between `"` and `*`
    assert Targets(HtmlRules())[if k < 4 then k + 1 else k + 2] == c;
  }

  lemma EscapedNotInEntities(c: char)
    requires c in Escaped
    ensures forall j :: 0 <= j < |HtmlRules()| ==> c !in HtmlRules()[j].entity
  {
    forall j | 0 <= j < |HtmlRules()| ensures c !in HtmlRules()[j].entity {
      EntityAlphabet(j);
    }
  }

  lemma EntitiesLong(j: nat)
    requires j < |HtmlRules()|
    ensures |HtmlRules()[j].entity| >= 2
  {
  }

  /** Escaping is not idempotent: text with an `&` escapes to text with an
      `&`, which a second escape rewrites again. */
  lemma EscapeNotIdempotent(s: string)
    requires '&' in s
    ensures Escape(Escape(s)) != Escape(s)
  {
    var rules := HtmlRules();
    var e := Escape(s);
    forall j | 0 <= j < |rules| ensures |rules[j].entity| >= 2 {
      EntitiesLong(j);
    }
    EscapeSinglePass(s);
    var k :| 0 <= k < |s| && s[k] == '&';
    assert Lookup('&', rules) == "&amp;";
    CharwiseKeeps(s, rules, k, '&');
    var m :| 0 <= m < |e| && e[m] == '&';
    assert Targets(rules)[0] == '&';
    EscapeSinglePass(e);
    CharwiseLength(e, rules);
  }

  /** Text with none of the sixteen characters comes out unchanged. */
  lemma EscapePlain(s: string)
    requires forall j :: 0 <= j < |HtmlRules()| ==> HtmlRules()[j].target !in s
    ensures Escape(s) == s
  {
    EscapeSinglePass(s);
    CharwiseUntouched(s, HtmlRules());
  }

  /** At most one empty line is dropped at each end, and nothing else changes:
      the result is the run of lines from `a` to `e`, where `a` skips the first
      line exactly when it is empty, and `e` stops one short of the end exactly
      when a line is left after `a` and the last line is empty. */
  lemma DropFramingShape(lines: seq<string>)
    ensures var r := DropFraming(lines);
      var a := if |lines| > 0 && lines[0] == "" then 1 else 0;
      var e := a + |r|;
      |lines| - 1 <= e <= |lines| && r == lines[a..e]
      && (e < |lines| <==> a < |lines| && lines[|lines| - 1] == "")
    ensures |lines| > 0 && lines[0] != "" && lines[|lines| - 1] != "" ==> DropFraming(lines) == lines
  {
  }

  /** Empty text, or a lone newline, renders as nothing. */
  lemma RenderEmpty()
    ensures Render("") == ""
    ensures Render("\n") == ""
  {
    assert Split("", '\n') == [""];
    assert Split("\n", '\n') == ["", ""];
  }

  /** A text line gets the `<br/>` marker exactly when it is not the last line:
      escaped text has no `/`, so it cannot end in one by itself. */
  lemma TextLineBreak(line: string, last: bool)
    ensures EndsWith(TextLine(line, last), LineBreak) <==> !last
  {
    assert Escaped[13] == '/';
    EscapeSafe(RStrip(line), '/');
    NoSlashNoBreak(Escape(RStrip(line)));
  }

  lemma NoSlashNoBreak(e: string)
    requires '/' !in e
    ensures !EndsWith(e, LineBreak) && EndsWith(e + LineBreak, LineBreak)
  {
    if |e| >= |LineBreak| {
      assert e[|e| - |LineBreak|..][3] == e[|e| - 2] != '/';
    }
    assert (e + LineBreak)[|e|..] == LineBreak;
  }

  /** Fence lines never get the `<br/>` marker: an opening tag ends in `">`
      and a closing tag in `</code></pre>`. */
  lemma FenceNoBreak(line: string, opening: bool)
    ensures !EndsWith(FenceLine(line, opening), LineBreak)
  {
    var out := FenceLine(line, opening);
    var tail := if opening then "\">" else CloseTag;
    assert out == out[..|out| - |tail|] + tail;
    assert |out| >= 5 && out[|out| - 2] == tail[|tail| - 2] != '/';
    assert out[|out| - 5..][3] == out[|out| - 2] != LineBreak[3];
  }

  predicate EndsWith(s: string, suffix: string) {
    |suffix| <= |s| && s[|s| - |suffix|..] == suffix
  }

  /** Line `i` is a fence that opens a code block. */
  predicate Opens(lines: seq<string>, i: nat)
    requires i < |lines|
  {
    IsFence(lines[i]) && FenceCount(lines[..i + 1]) % 2 == 1
  }

  /** Lines between two positions that hold no fence leave the count alone. */
  lemma {:induction false} FenceCountGap(lines: seq<string>, i: nat, j: nat)
    requires i <= j <= |lines|
    requires forall k :: i <= k < j ==> !IsFence(lines[k])
    ensures FenceCount(lines[..j]) == FenceCount(lines[..i])
    decreases j - i
  {
    if i < j {
      FenceCountSnoc(lines, j - 1);
      FenceCountGap(lines, i, j - 1);
    }
  }

  /** The first fence line opens a code block, and of two fence lines with no
      fence between them exactly one opens: fences alternate open, close. */
  lemma FencesAlternate(lines: seq<string>, i: nat, j: nat)
    requires i < j < |lines| && IsFence(lines[j])
    requires forall k :: i < k < j ==> !IsFence(lines[k])
    ensures IsFence(lines[i]) ==> (Opens(lines, i) <==> !Opens(lines, j))
    ensures (forall k :: 0 <= k < j ==> !IsFence(lines[k])) ==> Opens(lines, j)
    ensures RenderLine(lines, j) == FenceLine(lines[j], Opens(lines, j))
  {
    FenceCountSnoc(lines, j);
    FenceCountGap(lines, i + 1, j);
    if IsFence(lines[i]) {
      Parity(FenceCount(lines[..i + 1]));
    }
    if forall k :: 0 <= k < j ==> !IsFence(lines[k]) {
      FenceCountGap(lines, 0, j);
      assert lines[..0] == [];
    }
  }

  /** A fence line becomes the opening tag when it opens a block and the
      closing tag otherwise, wherever it stands. */
  lemma FenceRendering(lines: seq<string>, j: nat)
    requires j < |lines| && IsFence(lines[j])
    ensures RenderLine(lines, j) == FenceLine(lines[j], Opens(lines, j))
  {
  }

  /** The first fence line opens a code block, also when it is line 0. */
  lemma FirstFenceOpens(lines: seq<string>, j: nat)
    requires j < |lines| && IsFence(lines[j])
    requires forall k :: 0 <= k < j ==> !IsFence(lines[k])
    ensures Opens(lines, j)
    ensures RenderLine(lines, j) == FenceLine(lines[j], true)
  {
    FenceCountSnoc(lines, j);
    FenceCountGap(lines, 0, j);
    assert lines[..0] == [];
  }

  /** After the last fence line the block is open exactly when the number of
      fences is odd: with an even number the last fence closes its block and
      no opening tag is left dangling. */
  lemma LastFenceCloses(lines: seq<string>, j: nat)
    requires j < |lines| && IsFence(lines[j])
    requires forall k :: j < k < |lines| ==> !IsFence(lines[k])
    ensures Opens(lines, j) <==> FenceCount(lines) % 2 == 1
  {
    FenceCountGap(lines, j + 1, |lines|);
    assert lines[..|lines|] == lines;
  }
}
