/**
 * The few Python `str` operations that the escapers are built from, each stated
 * with the behaviour Python gives it: `split` on a one-character separator,
 * `"".join`, the `in` test for a substring, `rstrip()`/`strip()` without
 * arguments, `replace` of a single character, and chains of such replacements.
 */
module Strings {

  /** `c.isspace()` in Python 3: the characters that `strip()` and `rstrip()`
      remove when called without arguments. */
  predicate IsSpace(c: char) {
    || c == ' '
    || ('\t' <= c <= '\r')
    || ('\U{1C}' <= c <= '\U{1F}')
    || c == '\U{85}'
    || c == '\U{A0}'
    || c == '\U{1680}'
    || ('\U{2000}' <= c <= '\U{200A}')
    || c == '\U{2028}'
    || c == '\U{2029}'
    || c == '\U{202F}'
    || c == '\U{205F}'
    || c == '\U{3000}'
  }

  /** `s.rstrip()`. */
  function RStrip(s: string): string
    decreases |s|
  {
    if s != [] && IsSpace(s[|s| - 1]) then RStrip(s[..|s| - 1]) else s
  }

  /** `s.lstrip()`. */
  function LStrip(s: string): string
    decreases |s|
  {
    if s != [] && IsSpace(s[0]) then LStrip(s[1..]) else s
  }

  /** `s.strip()`. */
  function Strip(s: string): string {
    LStrip(RStrip(s))
  }

  /** `rstrip` keeps the longest prefix of `s` that does not end in whitespace. */
  lemma {:induction false} RStripSpec(s: string)
    ensures RStrip(s) <= s
    ensures RStrip(s) == [] || !IsSpace(RStrip(s)[|RStrip(s)| - 1])
    ensures forall k :: |RStrip(s)| <= k < |s| ==> IsSpace(s[k])
    decreases |s|
  {
    if s != [] && IsSpace(s[|s| - 1]) {
      RStripSpec(s[..|s| - 1]);
    }
  }

  /** `lstrip` keeps the longest suffix of `s` that does not start with whitespace. */
  lemma {:induction false} LStripSpec(s: string)
    ensures |LStrip(s)| <= |s| && LStrip(s) == s[|s| - |LStrip(s)|..]
    ensures LStrip(s) == [] || !IsSpace(LStrip(s)[0])
    ensures forall k :: 0 <= k < |s| - |LStrip(s)| ==> IsSpace(s[k])
    decreases |s|
  {
    if s != [] && IsSpace(s[0]) {
      LStripSpec(s[1..]);
    }
  }

  /** `strip` keeps the middle `s[i..j]` of `s`: everything it removes before
      `i` and from `j` on is whitespace, and what it keeps neither starts nor
      ends in whitespace. */
  lemma StripSpec(s: string)
    ensures var j := |RStrip(s)|;
      var i := j - |Strip(s)|;
      0 <= i <= j <= |s| && Strip(s) == s[i..j]
      && (forall k :: 0 <= k < i ==> IsSpace(s[k]))
      && (forall k :: j <= k < |s| ==> IsSpace(s[k]))
    ensures Strip(s) == [] || (!IsSpace(Strip(s)[0]) && !IsSpace(Strip(s)[|Strip(s)| - 1]))
  {
    var t := RStrip(s);
    RStripSpec(s);
    LStripSpec(t);
    var r := LStrip(t);
    assert forall k :: 0 <= k < |t| - |r| ==> s[k] == t[k];
    if r != [] {
      assert r[|r| - 1] == t[|t| - 1];
    }
  }

  /** `s.split(sep)` for a one-character separator: the pieces between the
      separators, so there is always at least one. */
  function Split(s: string, sep: char): (pieces: seq<string>)
    ensures |pieces| >= 1
    decreases |s|
  {
    if s == [] then [""]
    else
      var rest := Split(s[1..], sep);
      if s[0] == sep then [""] + rest else [[s[0]] + rest[0]] + rest[1..]
  }

  /** No piece of a split contains the separator. */
  lemma {:induction false} SplitPiecesFree(s: string, sep: char)
    ensures forall i :: 0 <= i < |Split(s, sep)| ==> sep !in Split(s, sep)[i]
    decreases |s|
  {
    if s != [] {
      SplitPiecesFree(s[1..], sep);
    }
  }

  /** `sep.join(pieces)`. */
  function Join(pieces: seq<string>, sep: string): string
    decreases |pieces|
  {
    if pieces == [] then ""
    else if |pieces| == 1 then pieces[0]
    else pieces[0] + sep + Join(pieces[1..], sep)
  }

  /** `"".join(parts)`. */
  function Concat(parts: seq<string>): string
    decreases |parts|
  {
    if parts == [] then "" else parts[0] + Concat(parts[1..])
  }

  /** Joining the pieces of a split with the separator gives the text back. */
  lemma {:induction false} SplitJoin(s: string, sep: char)
    ensures Join(Split(s, sep), [sep]) == s
    decreases |s|
  {
    if s != [] {
      var rest := Split(s[1..], sep);
      SplitJoin(s[1..], sep);
      if s[0] == sep {
        assert Split(s, sep) == [""] + rest;
        assert s == [sep] + s[1..];
      } else if |rest| == 1 {
        assert Split(s, sep) == [[s[0]] + rest[0]];
        assert s == [s[0]] + s[1..];
      } else {
        assert Split(s, sep) == [[s[0]] + rest[0]] + rest[1..];
        assert Join(rest, [sep]) == rest[0] + [sep] + Join(rest[1..], [sep]);
        assert s == [s[0]] + s[1..];
      }
    }
  }

  /** Splitting a join of separator-free pieces gives the pieces back. */
  lemma {:induction false} JoinSplit(pieces: seq<string>, sep: char)
    requires |pieces| >= 1
    requires forall i :: 0 <= i < |pieces| ==> sep !in pieces[i]
    ensures Split(Join(pieces, [sep]), sep) == pieces
    decreases |pieces|, |pieces[0]|
  {
    var p := pieces[0];
    if |pieces| == 1 {
      if p != [] {
        JoinSplit([p[1..]], sep);
        assert [p[0]] + p[1..] == p;
      }
    } else if p == [] {
      JoinSplit(pieces[1..], sep);
      assert Join(pieces, [sep]) == [sep] + Join(pieces[1..], [sep]);
    } else {
      var shorter := [p[1..]] + pieces[1..];
      assert forall i :: 1 <= i < |shorter| ==> shorter[i] == pieces[i];
      JoinSplit(shorter, sep);
      var joined := Join(pieces, [sep]);
      assert joined == [p[0]] + Join(shorter, [sep]);
      assert joined != [] && joined[0] == p[0] != sep && joined[1..] == Join(shorter, [sep]);
      assert Split(joined, sep) == [[p[0]] + p[1..]] + pieces[1..];
      assert [p[0]] + p[1..] == p;
      assert pieces == [p] + pieces[1..];
    }
  }

  /** `"".join` distributes over list concatenation. */
  lemma {:induction false} ConcatAppend(a: seq<string>, b: seq<string>)
    ensures Concat(a + b) == Concat(a) + Concat(b)
    decreases |a|
  {
    if a != [] {
      ConcatAppend(a[1..], b);
      assert (a + b)[0] == a[0] && (a + b)[1..] == a[1..] + b;
    } else {
      assert a + b == b;
    }
  }

  /** `t in s` for strings: `t` occurs in `s` as a contiguous substring. */
  predicate Contains(s: string, t: string)
    decreases |s|
  {
    |t| <= |s| && (s[..|t|] == t || Contains(s[1..], t))
  }

  /** `t` occurs in `s` starting at position `i`. */
  predicate OccursAt(s: string, t: string, i: int) {
    0 <= i <= |s| - |t| && s[i..i + |t|] == t
  }

  /** `Contains` finds exactly the positions where `t` occurs. */
  lemma {:induction false} ContainsAt(s: string, t: string)
    ensures Contains(s, t) <==> exists i :: OccursAt(s, t, i)
    decreases |s|
  {
    if |t| <= |s| && s[..|t|] != t {
      ContainsAt(s[1..], t);
      if Contains(s[1..], t) {
        var i :| OccursAt(s[1..], t, i);
        assert OccursAt(s, t, i + 1);
      }
      if exists i :: OccursAt(s, t, i) {
        var i :| OccursAt(s, t, i);
        assert i != 0;
        assert OccursAt(s[1..], t, i - 1);
      }
    } else if |t| <= |s| {
      assert OccursAt(s, t, 0);
    }
  }

  /** `s.replace(c, entity)` for a single character `c`: every occurrence of `c`
      is replaced by `entity`, in one left-to-right pass. */
  function Replace(s: string, c: char, entity: string): string
    decreases |s|
  {
    if s == [] then ""
    else (if s[0] == c then entity else [s[0]]) + Replace(s[1..], c, entity)
  }

  /** One step of an escaping chain: `.replace(target, entity)`. */
  datatype Rule = Rule(target: char, entity: string)

  /** A chain `s.replace(r0).replace(r1)...`, applied in the order of `rules`. */
  function ApplyRules(s: string, rules: seq<Rule>): string
    decreases |rules|
  {
    if rules == [] then s
    else ApplyRules(Replace(s, rules[0].target, rules[0].entity), rules[1..])
  }

  /** What a single pass over the text does to one character: the entity of the
      first rule that targets it, or the character itself. */
  function Lookup(c: char, rules: seq<Rule>): string
    decreases |rules|
  {
    if rules == [] then [c]
    else if rules[0].target == c then rules[0].entity
    else Lookup(c, rules[1..])
  }

  /** A single pass over the text that rewrites each character by `Lookup`. */
  function Charwise(s: string, rules: seq<Rule>): string
    decreases |s|
  {
    if s == [] then "" else Lookup(s[0], rules) + Charwise(s[1..], rules)
  }

  /** No rule's entity contains a character that a later rule targets, so text
      introduced by one rule is never rewritten by a later one. */
  predicate NoReescape(rules: seq<Rule>) {
    forall i, j :: 0 <= i < j < |rules| ==> rules[j].target !in rules[i].entity
  }

  /** The characters the chain rewrites. */
  function Targets(rules: seq<Rule>): (ts: seq<char>)
    ensures |ts| == |rules|
    ensures forall j :: 0 <= j < |rules| ==> ts[j] == rules[j].target
  {
    seq(|rules|, j requires 0 <= j < |rules| => rules[j].target)
  }

  lemma {:induction false} CharwiseAppend(a: string, b: string, rules: seq<Rule>)
    ensures Charwise(a + b, rules) == Charwise(a, rules) + Charwise(b, rules)
    decreases |a|
  {
    if a != [] {
      CharwiseAppend(a[1..], b, rules);
      assert (a + b)[0] == a[0] && (a + b)[1..] == a[1..] + b;
    } else {
      assert a + b == b;
    }
  }

  lemma {:induction false} ReplaceAppend(a: string, b: string, c: char, entity: string)
    ensures Replace(a + b, c, entity) == Replace(a, c, entity) + Replace(b, c, entity)
    decreases |a|
  {
    if a != [] {
      ReplaceAppend(a[1..], b, c, entity);
      assert (a + b)[0] == a[0] && (a + b)[1..] == a[1..] + b;
    } else {
      assert a + b == b;
    }
  }

  /** Text that none of the rules targets passes through a single pass unchanged. */
  lemma {:induction false} CharwiseUntouched(t: string, rules: seq<Rule>)
    requires forall j :: 0 <= j < |rules| ==> rules[j].target !in t
    ensures Charwise(t, rules) == t
    decreases |t|
  {
    if t != [] {
      LookupMiss(t[0], rules);
      CharwiseUntouched(t[1..], rules);
      assert t == [t[0]] + t[1..];
    }
  }

  lemma {:induction false} LookupMiss(c: char, rules: seq<Rule>)
    requires forall j :: 0 <= j < |rules| ==> rules[j].target != c
    ensures Lookup(c, rules) == [c]
    decreases |rules|
  {
    if rules != [] {
      LookupMiss(c, rules[1..]);
    }
  }

  lemma {:induction false} ReplaceThenCharwise(s: string, r: Rule, rest: seq<Rule>)
    requires forall j :: 0 <= j < |rest| ==> rest[j].target !in r.entity
    ensures Charwise(Replace(s, r.target, r.entity), rest) == Charwise(s, [r] + rest)
    decreases |s|
  {
    if s != [] {
      var head := if s[0] == r.target then r.entity else [s[0]];
      ReplaceThenCharwise(s[1..], r, rest);
      CharwiseAppend(head, Replace(s[1..], r.target, r.entity), rest);
      assert ([r] + rest)[1..] == rest;
      if s[0] == r.target {
        CharwiseUntouched(r.entity, rest);
      } else {
        assert Charwise([s[0]], rest) == Lookup(s[0], rest) + Charwise([], rest);
      }
    }
  }

  /** A chain of replacements whose entities are never re-escaped behaves as a
      single pass that maps every character through the first rule targeting it. */
  lemma {:induction false} ApplyRulesCharwise(s: string, rules: seq<Rule>)
    requires NoReescape(rules)
    ensures ApplyRules(s, rules) == Charwise(s, rules)
    decreases |rules|
  {
    if rules == [] {
      CharwiseUntouched(s, rules);
    } else {
      var rest := rules[1..];
      assert NoReescape(rest) by {
        forall i, j | 0 <= i < j < |rest| ensures rest[j].target !in rest[i].entity {
          assert rest[j] == rules[j + 1] && rest[i] == rules[i + 1];
        }
      }
      ApplyRulesCharwise(Replace(s, rules[0].target, rules[0].entity), rest);
      forall j | 0 <= j < |rest| ensures rest[j].target !in rules[0].entity {
        assert rest[j] == rules[j + 1];
      }
      ReplaceThenCharwise(s, rules[0], rest);
      assert [rules[0]] + rest == rules;
    }
  }

  /** A character that some rule targets and that no entity contains cannot
      appear in the output of a single pass. */
  lemma {:induction false} CharwiseAvoids(s: string, rules: seq<Rule>, c: char)
    requires c in Targets(rules)
    requires forall j :: 0 <= j < |rules| ==> c !in rules[j].entity
    ensures c !in Charwise(s, rules)
    decreases |s|
  {
    if s != [] {
      LookupAvoids(s[0], rules, c);
      CharwiseAvoids(s[1..], rules, c);
    }
  }

  lemma {:induction false} LookupAvoids(x: char, rules: seq<Rule>, c: char)
    requires c in Targets(rules)
    requires forall j :: 0 <= j < |rules| ==> c !in rules[j].entity
    ensures c !in Lookup(x, rules)
    decreases |rules|
  {
    if rules[0].target != x {
      if rules[0].target == c {
        // x != c: either a later entity or x itself, neither of which is c
        LookupNotTarget(x, rules[1..], c);
      } else {
        assert c in Targets(rules[1..]) by {
          var j :| 0 <= j < |rules| && Targets(rules)[j] == c;
          assert j != 0 && Targets(rules[1..])[j - 1] == c;
        }
        LookupAvoids(x, rules[1..], c);
      }
    }
  }

  lemma {:induction false} LookupNotTarget(x: char, rules: seq<Rule>, c: char)
    requires x != c
    requires forall j :: 0 <= j < |rules| ==> c !in rules[j].entity
    ensures c !in Lookup(x, rules)
    decreases |rules|
  {
    if rules != [] && rules[0].target != x {
      LookupNotTarget(x, rules[1..], c);
    }
  }

  /** Every character becomes at least one character, and one that a rule
      targets becomes at least two when every entity is that long. */
  lemma {:induction false} LookupLength(c: char, rules: seq<Rule>)
    requires forall j :: 0 <= j < |rules| ==> |rules[j].entity| >= 2
    ensures |Lookup(c, rules)| >= 1
    ensures c in Targets(rules) ==> |Lookup(c, rules)| >= 2
    decreases |rules|
  {
    if rules != [] && rules[0].target != c {
      LookupLength(c, rules[1..]);
      if c in Targets(rules) {
        var j :| 0 <= j < |rules| && Targets(rules)[j] == c;
        assert Targets(rules[1..])[j - 1] == c;
      }
    }
  }

  /** A single pass never shortens the text, and lengthens it when some
      character is targeted. */
  lemma {:induction false} CharwiseLength(t: string, rules: seq<Rule>)
    requires forall j :: 0 <= j < |rules| ==> |rules[j].entity| >= 2
    ensures |Charwise(t, rules)| >= |t|
    ensures (exists k :: 0 <= k < |t| && t[k] in Targets(rules)) ==> |Charwise(t, rules)| > |t|
    decreases |t|
  {
    if t != [] {
      LookupLength(t[0], rules);
      CharwiseLength(t[1..], rules);
      if exists k :: 0 <= k < |t| && t[k] in Targets(rules) {
        var k :| 0 <= k < |t| && t[k] in Targets(rules);
        if k > 0 {
          assert t[1..][k - 1] in Targets(rules);
        }
      }
    }
  }

  /** Whatever a character is rewritten to appears in the output. */
  lemma {:induction false} CharwiseKeeps(t: string, rules: seq<Rule>, k: nat, c: char)
    requires k < |t| && c in Lookup(t[k], rules)
    ensures c in Charwise(t, rules)
    decreases k
  {
    if k > 0 {
      CharwiseKeeps(t[1..], rules, k - 1, c);
    }
  }

  /** A character is rewritten by the first rule that targets it. */
  lemma {:induction false} LookupAt(c: char, rules: seq<Rule>, j: nat)
    requires j < |rules| && rules[j].target == c
    requires forall i :: 0 <= i < j ==> rules[i].target != c
    ensures Lookup(c, rules) == rules[j].entity
    decreases j
  {
    if j > 0 {
      LookupAt(c, rules[1..], j - 1);
    }
  }

  /** Two rule lists that rewrite every character of `s` alike give the same pass. */
  lemma {:induction false} CharwiseAgree(s: string, r1: seq<Rule>, r2: seq<Rule>)
    requires forall k :: 0 <= k < |s| ==> Lookup(s[k], r1) == Lookup(s[k], r2)
    ensures Charwise(s, r1) == Charwise(s, r2)
    decreases |s|
  {
    if s != [] {
      CharwiseAgree(s[1..], r1, r2);
    }
  }

  /** Replacing a character by text that does not contain it removes it. */
  lemma {:induction false} ReplaceRemoves(s: string, c: char, entity: string)
    requires c !in entity
    ensures c !in Replace(s, c, entity)
    decreases |s|
  {
    if s != [] {
      ReplaceRemoves(s[1..], c, entity);
    }
  }

  /** Replacing a character that occurs by text without it changes the text. */
  lemma ReplaceChanges(s: string, c: char, entity: string)
    requires c !in entity
    ensures c in s ==> Replace(s, c, entity) != s
  {
    ReplaceRemoves(s, c, entity);
  }
}
