/**
 * `_parse_text` of the Qwen streaming demo: every empty line is dropped, fence
 * lines (those containing three backticks) become an opening
 * `<pre><code class="language-…">` tag or a closing `<br></code></pre>` marker
 * in turn, and every later line gets a `<br>` prefix; only lines inside a code
 * block are escaped, by a chain that leaves `&` alone.
 */
module QwenEscaper {
  import opened Strings
  import Escaper

  /** The replacement chain, in the order the source applies it; there is no
      rule for `&`, `"`, `'` or `/`. */
  function QwenRules(): seq<Rule> {
    [
    Rule('`', "\\`"), Rule('<', "&lt;"), Rule('>', "&gt;"), Rule(' ', "&nbsp;"),
    Rule('*', "&ast;"), Rule('_', "&lowbar;"), Rule('-', "&#45;"), Rule('.', "&#46;"),
    Rule('!', "&#33;"), Rule('(', "&#40;"), Rule(')', "&#41;"), Rule('$', "&#36;")
    ]
  }

  /** Characters that never survive the chain. */
  const QwenEscaped: string := "<> *_-.!()$"

  const CloseMarker: string := "<br></code></pre>"
  const LinePrefix: string := "<br>"

  function QwenEscape(s: string): string {
    ApplyRules(s, QwenRules())
  }

  /** `[line for line in lines if line != ""]`. */
  function NonEmpty(lines: seq<string>): (kept: seq<string>)
    decreases |lines|
  {
    if lines == [] then []
    else (if lines[0] == "" then [] else [lines[0]]) + NonEmpty(lines[1..])
  }

  /** What a fence line becomes: `items` is the line split on single backticks;
      an opening fence names the language after the last backtick, unstripped,
      and a closing fence is replaced by the closing marker. */
  function QwenFenceLine(line: string, opening: bool): string {
    var items := Split(line, '`');
    if opening then Escaper.OpenTag(items[|items| - 1]) else CloseMarker
  }

  /** Line `i` of the output. The k-th fence line opens a code block named by
      what follows its last backtick when k is odd, and is replaced by the
      closing marker when k is even. Any other line after the first gets the
      `<br>` prefix and is escaped when it lies inside a code block. */
  function QwenRenderLine(lines: seq<string>, i: nat): string
    requires i < |lines|
  {
    var line := lines[i];
    if Escaper.IsFence(line) then QwenFenceLine(line, Escaper.FenceCount(lines[..i + 1]) % 2 == 1)
    else if i > 0 then
      LinePrefix + (if Escaper.FenceCount(lines[..i]) % 2 == 1 then QwenEscape(line) else line)
    else line
  }

  function QwenRenderLines(lines: seq<string>): (out: seq<string>)
    ensures |out| == |lines|
    ensures forall i :: 0 <= i < |lines| ==> out[i] == QwenRenderLine(lines, i)
  {
    seq(|lines|, i requires 0 <= i < |lines| => QwenRenderLine(lines, i))
  }

  /** The whole of `_parse_text`. */
  function QwenRender(text: string): string {
    Concat(QwenRenderLines(NonEmpty(Split(text, '\n'))))
  }

  /** `_parse_text`: split into lines, drop the empty ones, rewrite each line
      and join them. */
  method QwenParseText(text: string) returns (html: string)
    ensures html == QwenRender(text)
  {
    var lines := NonEmpty(Split(text, '\n'));
    lines := QwenRewriteLines(lines);
    html := Concat(lines);
  }

  /** The loop of `_parse_text`: rewrites each line in place while counting the
      fence lines seen so far. */
  method QwenRewriteLines(original: seq<string>) returns (lines: seq<string>)
    ensures lines == QwenRenderLines(original)
  {
    lines := original;
    var count := 0;
    for i := 0 to |lines|
      invariant |lines| == |original|
      invariant forall k :: i <= k < |lines| ==> lines[k] == original[k]
      invariant forall k :: 0 <= k < i ==> lines[k] == QwenRenderLine(original, k)
      invariant count == Escaper.FenceCount(original[..i])
    {
      var rendered;
      rendered, count := QwenRewriteLine(original, i, count);
      lines := lines[i := rendered];
    }
  }

  /** The body of that loop for line `i`, given the number of fences before it:
      the line it writes and the count after it. A line at index 0 that is not
      a fence is written back unchanged. */
  method QwenRewriteLine(lines: seq<string>, i: nat, count: nat) returns (rendered: string, next: nat)
    requires i < |lines| && count == Escaper.FenceCount(lines[..i])
    ensures rendered == QwenRenderLine(lines, i)
    ensures next == Escaper.FenceCount(lines[..i + 1])
  {
    var line := lines[i];
    rendered := line;
    next := count;
    if Escaper.IsFence(line) {
      QwenFenceStep(lines, i, count);
      next := count + 1;
      var items := Split(line, '`');
      if next % 2 == 1 {
        rendered := Escaper.OpenTag(items[|items| - 1]);
      } else {
        rendered := CloseMarker;
      }
    } else {
      QwenTextStep(lines, i, count);
      if i > 0 {
        if count % 2 == 1 {
          line := QwenEscape(line);
        }
        rendered := LinePrefix + line;
      }
    }
  }

  /** One step of the loop at a fence line: with `count` fences seen before
      line `i`, the source's branch produces line `i` of the output. */
  lemma QwenFenceStep(lines: seq<string>, i: nat, count: nat)
    requires i < |lines| && count == Escaper.FenceCount(lines[..i]) && Escaper.IsFence(lines[i])
    ensures Escaper.FenceCount(lines[..i + 1]) == count + 1
    ensures var items := Split(lines[i], '`');
      QwenRenderLine(lines, i) ==
        if (count + 1) % 2 == 1 then Escaper.OpenTag(items[|items| - 1]) else CloseMarker
  {
    Escaper.FenceCountSnoc(lines, i);
    assert QwenRenderLine(lines, i) == QwenFenceLine(lines[i], (count + 1) % 2 == 1);
  }

  /** One step of the loop at any other line. */
  lemma QwenTextStep(lines: seq<string>, i: nat, count: nat)
    requires i < |lines| && count == Escaper.FenceCount(lines[..i]) && !Escaper.IsFence(lines[i])
    ensures Escaper.FenceCount(lines[..i + 1]) == count
    ensures QwenRenderLine(lines, i) ==
      if i > 0 then LinePrefix + (if count % 2 == 1 then QwenEscape(lines[i]) else lines[i])
      else lines[i]
  {
    Escaper.FenceCountSnoc(lines, i);
  }

  /** What the filter leaves has no empty line, joins to the same text, and a
      list without empty lines is left as it is. */
  lemma {:induction false} NonEmptySpec(lines: seq<string>)
    ensures forall k :: 0 <= k < |NonEmpty(lines)| ==> NonEmpty(lines)[k] != ""
    ensures Concat(NonEmpty(lines)) == Concat(lines)
    ensures (forall k :: 0 <= k < |lines| ==> lines[k] != "") ==> NonEmpty(lines) == lines
    decreases |lines|
  {
    if lines != [] {
      var head := if lines[0] == "" then [] else [lines[0]];
      var tail := lines[1..];
      NonEmptySpec(tail);
      ConcatAppend(head, NonEmpty(tail));
      if (forall k :: 0 <= k < |lines| ==> lines[k] != "") {
        assert forall k :: 0 <= k < |tail| ==> tail[k] == lines[k + 1];
      }
    }
  }

  /** The filter keeps exactly the non-empty lines, in order: the result for
      a list is the results for its parts in sequence, and with `NonEmptyLine`
      it keeps each line exactly when it is not empty. */
  lemma {:induction false} NonEmptyInOrder(a: seq<string>, b: seq<string>)
    ensures NonEmpty(a + b) == NonEmpty(a) + NonEmpty(b)
    decreases |a|
  {
    if a == [] {
      assert a + b == b;
    } else {
      var head := if a[0] == "" then [] else [a[0]];
      assert (a + b)[0] == a[0] && (a + b)[1..] == a[1..] + b;
      NonEmptyInOrder(a[1..], b);
      calc {
        NonEmpty(a + b);
        head + NonEmpty(a[1..] + b);
        head + (NonEmpty(a[1..]) + NonEmpty(b));
        (head + NonEmpty(a[1..])) + NonEmpty(b);
        NonEmpty(a) + NonEmpty(b);
      }
    }
  }

  /** A single line is kept exactly when it is not empty. */
  lemma NonEmptyLine(line: string)
    ensures NonEmpty([line]) == (if line == "" then [] else [line])
  {
    assert [line][1..] == [];
  }

  /** Text made only of newlines has no line left and renders as nothing. */
  lemma {:induction false} OnlyNewlines(text: string)
    requires forall k :: 0 <= k < |text| ==> text[k] == '\n'
    ensures forall k :: 0 <= k < |Split(text, '\n')| ==> Split(text, '\n')[k] == ""
    ensures NonEmpty(Split(text, '\n')) == []
    ensures QwenRender(text) == ""
    decreases |text|
  {
    if text != [] {
      OnlyNewlines(text[1..]);
    }
    var ls := Split(text, '\n');
    NonEmptySpec(ls);
    assert NonEmpty(ls) == [] by {
      if NonEmpty(ls) != [] {
        NonEmptyFrom(ls);
      }
    }
  }

  /** Every kept line is one of the input lines. */
  lemma {:induction false} NonEmptyFrom(lines: seq<string>)
    ensures forall x :: x in NonEmpty(lines) ==> x in lines
    decreases |lines|
  {
    if lines != [] {
      NonEmptyFrom(lines[1..]);
    }
  }

  lemma QwenEntityAlphabet(i: nat)
    requires i < |QwenRules()|
    ensures forall c :: c in QwenRules()[i].entity ==> Escaper.EntityChar(c)
    ensures |QwenRules()[i].entity| >= 2
  {
  }

  lemma QwenTargetOutside(j: nat)
    requires 1 <= j < |QwenRules()|
    ensures !Escaper.EntityChar(QwenRules()[j].target)
  {
  }

  /** Only the first rule, for the backtick, has an entity a later rule could
      see, and no later rule targets a backtick or `\`. */
  lemma QwenRulesNoReescape()
    ensures NoReescape(QwenRules())
  {
    var rules := QwenRules();
    forall i, j | 0 <= i < j < |rules| ensures rules[j].target !in rules[i].entity {
      QwenEntityAlphabet(i);
      QwenTargetOutside(j);
    }
  }

  lemma QwenEscapeSinglePass(s: string)
    ensures QwenEscape(s) == Charwise(s, QwenRules())
  {
    QwenRulesNoReescape();
    ApplyRulesCharwise(s, QwenRules());
  }

  /** None of `< > space * _ - . ! ( ) $` survives the chain. */
  lemma QwenEscapeSafe(s: string, c: char)
    requires c in QwenEscaped
    ensures c !in QwenEscape(s)
  {
    QwenEscapeSinglePass(s);
    QwenEscapedIsTarget(c);
    QwenEscapedNotInEntities(c);
    CharwiseAvoids(s, QwenRules(), c);
  }

  lemma QwenEscapedIsTarget(c: char)
    requires c in QwenEscaped
    ensures c in Targets(QwenRules())
  {
    var k :| 0 <= k < |QwenEscaped| && QwenEscaped[k] == c;
    assert Targets(QwenRules())[k + 1] == c;
  }

  lemma QwenEscapedNotInEntities(c: char)
    requires c in QwenEscaped
    ensures forall j :: 0 <= j < |QwenRules()| ==> c !in QwenRules()[j].entity
  {
    forall j | 0 <= j < |QwenRules()| ensures c !in QwenRules()[j].entity {
      QwenEntityAlphabet(j);
    }
  }

  /** The chain has no rule for `&`: an `&` of the input is still in the output. */
  lemma QwenKeepsAmpersand(s: string)
    requires '&' in s
    ensures '&' in QwenEscape(s)
  {
    var rules := QwenRules();
    QwenEscapeSinglePass(s);
    var k :| 0 <= k < |s| && s[k] == '&';
    forall j | 0 <= j < |rules| ensures rules[j].target != '&' {
      if j > 0 {
        QwenTargetOutside(j);
      }
    }
    LookupMiss('&', rules);
    CharwiseKeeps(s, rules, k, '&');
  }

  /** Where the rule for a Qwen target sits in the ChatGLM chain. */
  function HtmlIndex(j: nat): nat
    requires j < |QwenRules()|
  {
    if j == 0 then 5 else if j < 4 then j else j + 2
  }

  lemma SameRule(j: nat)
    requires j < |QwenRules()|
    ensures HtmlIndex(j) < |Escaper.HtmlRules()|
    ensures Escaper.HtmlRules()[HtmlIndex(j)] == QwenRules()[j]
    ensures forall i :: 0 <= i < j ==> QwenRules()[i].target != QwenRules()[j].target
    ensures forall i :: 0 <= i < HtmlIndex(j) ==> Escaper.HtmlRules()[i].target != QwenRules()[j].target
  {
  }

  /** The characters the ChatGLM chain rewrites and the Qwen chain does not. */
  const HtmlOnly: string := "&\"'/"

  lemma NotQwenTarget(c: char)
    requires c !in Targets(QwenRules()) && c !in HtmlOnly
    ensures forall j :: 0 <= j < |Escaper.HtmlRules()| ==> Escaper.HtmlRules()[j].target != c
  {
    forall j | 0 <= j < |Escaper.HtmlRules()| ensures Escaper.HtmlRules()[j].target != c {
      var t := Targets(QwenRules());
      assert t[0] == '`' && t[1] == '<' && t[2] == '>' && t[3] == ' ' && t[4] == '*' && t[5] == '_';
      assert t[6] == '-' && t[7] == '.' && t[8] == '!' && t[9] == '(' && t[10] == ')' && t[11] == '$';
    }
  }

  /** Both chains rewrite a character other than `& " ' /` in the same way. */
  lemma LookupAgrees(c: char)
    requires c !in HtmlOnly
    ensures Lookup(c, QwenRules()) == Lookup(c, Escaper.HtmlRules())
  {
    if c in Targets(QwenRules()) {
      var j :| 0 <= j < |QwenRules()| && Targets(QwenRules())[j] == c;
      SameRule(j);
      LookupAt(c, QwenRules(), j);
      LookupAt(c, Escaper.HtmlRules(), HtmlIndex(j));
    } else {
      forall j | 0 <= j < |QwenRules()| ensures QwenRules()[j].target != c {
        assert Targets(QwenRules())[j] == QwenRules()[j].target;
      }
      NotQwenTarget(c);
      LookupMiss(c, QwenRules());
      LookupMiss(c, Escaper.HtmlRules());
    }
  }

  /** On text without `& " ' /`, the Qwen chain escapes exactly as the ChatGLM
      chain does. */
  lemma QwenAgreesWithHtml(s: string)
    requires forall k :: 0 <= k < |s| ==> s[k] !in HtmlOnly
    ensures QwenEscape(s) == Escaper.Escape(s)
  {
    QwenEscapeSinglePass(s);
    Escaper.EscapeSinglePass(s);
    forall k | 0 <= k < |s| ensures Lookup(s[k], QwenRules()) == Lookup(s[k], Escaper.HtmlRules()) {
      LookupAgrees(s[k]);
    }
    CharwiseAgree(s, QwenRules(), Escaper.HtmlRules());
  }

  /** Because `&` is left alone, writing `&lt;` for `<` in a code line does not
      change its HTML: two different lines are escaped alike. */
  lemma QwenEscapeCollides(s: string)
    ensures QwenEscape(Replace(s, '<', "&lt;")) == QwenEscape(s)
    ensures '<' in s ==> Replace(s, '<', "&lt;") != s
  {
    QwenEscapeSinglePass(s);
    QwenEscapeSinglePass(Replace(s, '<', "&lt;"));
    LtEntityFixed();
    CharwiseLtInvariant(s);
    ReplaceChanges(s, '<', "&lt;");
  }

  /** `&lt;` goes through the chain unchanged, and is what `<` becomes. */
  lemma LtEntityFixed()
    ensures Charwise("&lt;", QwenRules()) == "&lt;"
    ensures Lookup('<', QwenRules()) == "&lt;"
    ensures '<' !in "&lt;"
  {
    var rules := QwenRules();
    SameRule(1);
    LookupAt('<', rules, 1);
    forall j | 0 <= j < |rules| ensures rules[j].target !in "&lt;" {
      if j > 0 {
        QwenTargetOutside(j);
      }
    }
    CharwiseUntouched("&lt;", rules);
  }

  lemma {:induction false} CharwiseLtInvariant(s: string)
    requires Charwise("&lt;", QwenRules()) == "&lt;" && Lookup('<', QwenRules()) == "&lt;"
    ensures Charwise(Replace(s, '<', "&lt;"), QwenRules()) == Charwise(s, QwenRules())
    decreases |s|
  {
    if s != [] {
      var rules := QwenRules();
      var head := if s[0] == '<' then "&lt;" else [s[0]];
      CharwiseLtInvariant(s[1..]);
      CharwiseAppend(head, Replace(s[1..], '<', "&lt;"), rules);
      if s[0] != '<' {
        assert Charwise([s[0]], rules) == Lookup(s[0], rules) + Charwise([], rules);
      }
    }
  }
}
