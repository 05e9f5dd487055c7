/**
  String operations of the host language that the cleaner relies on:
  `str.replace` for a non-empty pattern, and a per-character rewrite by a
  list of rules (a character mapped to its replacement text).
 */
module Strings {

  /** A rewrite rule: one source character and the text that replaces it. */
  type Rule = (char, string)

  /** `s.replace(pattern, replacement)`: the leftmost occurrence is replaced,
      and scanning resumes after it, so occurrences never overlap. */
  function Replace(s: string, pattern: string, replacement: string): string
    requires |pattern| > 0
    decreases |s|
  {
    if |s| < |pattern| then s
    else if s[..|pattern|] == pattern then replacement + Replace(s[|pattern|..], pattern, replacement)
    else [s[0]] + Replace(s[1..], pattern, replacement)
  }

  /** The replacement the first rule for `c` gives, or `c` itself if no rule matches. */
  function Lookup(c: char, rules: seq<Rule>): string
  {
    if rules == [] then [c]
    else if rules[0].0 == c then rules[0].1
    else Lookup(c, rules[1..])
  }

  /** Every character of `s` rewritten independently by `rules`. */
  function MapChars(s: string, rules: seq<Rule>): string
  {
    if s == [] then [] else Lookup(s[0], rules) + MapChars(s[1..], rules)
  }

  /** The source's `for orig, repl in table: text = text.replace(orig, repl)`. */
  function ApplyRules(s: string, rules: seq<Rule>): string
    decreases |rules|
  {
    if rules == [] then s
    else ApplyRules(Replace(s, [rules[0].0], rules[0].1), rules[1..])
  }

  /** No replacement text contains a source character of any rule. */
  ghost predicate NoRuleFeedsAnother(rules: seq<Rule>)
  {
    forall i, j :: 0 <= i < |rules| && 0 <= j < |rules| ==> rules[i].0 !in rules[j].1
  }

  /** Some rule has `c` as its source. */
  predicate IsSource(c: char, rules: seq<Rule>)
  {
    exists i :: 0 <= i < |rules| && rules[i].0 == c
  }

  /** A plain string prefix test (`s.startswith(p)`). */
  predicate IsPrefix(p: string, s: string)
  {
    |p| <= |s| && s[..|p|] == p
  }

  /** `s.endswith(p)`. */
  predicate IsSuffix(p: string, s: string)
  {
    |p| <= |s| && s[|s| - |p|..] == p
  }

  /** The substring test `sub in s`. */
  predicate Contains(s: string, sub: string)
  {
    exists i :: 0 <= i <= |s| && IsPrefix(sub, s[i..])
  }

  /** `s.count(c)` for a one-character pattern: the occurrences of `c`. */
  function Count(s: string, c: char): nat
  {
    if s == [] then 0 else (if s[0] == c then 1 else 0) + Count(s[1..], c)
  }

  lemma ConcatAssoc(x: string, y: string, z: string)
    ensures x + y + z == x + (y + z)
  {
  }

  lemma AppendEmpty(x: string)
    ensures x + [] == x
  {
  }

  lemma {:induction false} MapCharsAppend(a: string, b: string, rules: seq<Rule>)
    ensures MapChars(a + b, rules) == MapChars(a, rules) + MapChars(b, rules)
    decreases |a|
  {
    if a == [] {
      assert a + b == b;
    } else {
      assert (a + b)[0] == a[0];
      assert (a + b)[1..] == a[1..] + b;
      MapCharsAppend(a[1..], b, rules);
    }
  }

  lemma {:induction false} LookupNotSource(c: char, rules: seq<Rule>)
    requires !IsSource(c, rules)
    ensures Lookup(c, rules) == [c]
    decreases |rules|
  {
    if rules != [] {
      assert rules[0].0 != c;
      assert forall i :: 0 <= i < |rules[1..]| ==> rules[1..][i] == rules[i + 1];
      LookupNotSource(c, rules[1..]);
    }
  }

  /** Text with no source character passes through `MapChars` unchanged. */
  lemma {:induction false} MapCharsIdentity(s: string, rules: seq<Rule>)
    requires forall c :: c in s ==> !IsSource(c, rules)
    ensures MapChars(s, rules) == s
    decreases |s|
  {
    if s != [] {
      LookupNotSource(s[0], rules);
      MapCharsIdentity(s[1..], rules);
      assert s == [s[0]] + s[1..];
    }
  }

  /** A single-character `str.replace` is a per-character rewrite. */
  lemma {:induction false} ReplaceCharIsMap(s: string, c: char, r: string)
    ensures Replace(s, [c], r) == MapChars(s, [(c, r)])
    decreases |s|
  {
    if s != [] {
      assert s[..1] == [s[0]];
      assert Lookup(s[0], [(c, r)]) == (if s[0] == c then r else [s[0]]);
      ReplaceCharIsMap(s[1..], c, r);
    }
  }

  /** Rewriting by one rule and then by the rest equals rewriting by all,
      provided the first replacement holds no source of the rest. */
  lemma {:induction false} MapCharsCompose(s: string, first: Rule, rest: seq<Rule>)
    requires forall c :: c in first.1 ==> !IsSource(c, rest)
    ensures MapChars(MapChars(s, [first]), rest) == MapChars(s, [first] + rest)
    decreases |s|
  {
    var rules := [first] + rest;
    assert rules[1..] == rest;
    if s != [] {
      var head := Lookup(s[0], [first]);
      calc {
        MapChars(MapChars(s, [first]), rest);
        { MapCharsAppend(head, MapChars(s[1..], [first]), rest); }
        MapChars(head, rest) + MapChars(MapChars(s[1..], [first]), rest);
        { MapCharsCompose(s[1..], first, rest); }
        MapChars(head, rest) + MapChars(s[1..], rules);
      }
      if s[0] == first.0 {
        MapCharsIdentity(first.1, rest);
      } else {
        assert [first][1..] == [];
        assert head == Lookup(s[0], []);
        assert MapChars(head, rest) == Lookup(s[0], rest) by {
          assert head[1..] == [];
        }
      }
    }
  }

  /** The dictionary loop equals a single per-character rewrite, so the
      order of the rules does not matter once no replacement feeds another. */
  lemma {:induction false} ApplyRulesIsMap(s: string, rules: seq<Rule>)
    requires NoRuleFeedsAnother(rules)
    ensures ApplyRules(s, rules) == MapChars(s, rules)
    decreases |rules|
  {
    if rules == [] {
      MapCharsIdentity(s, rules);
    } else {
      var rest := rules[1..];
      assert NoRuleFeedsAnother(rest) by {
        forall i, j | 0 <= i < |rest| && 0 <= j < |rest|
          ensures rest[i].0 !in rest[j].1
        {
          assert rest[i] == rules[i + 1] && rest[j] == rules[j + 1];
        }
      }
      assert forall i :: 0 <= i < |rest| ==> rest[i] == rules[i + 1];
      ReplaceCharIsMap(s, rules[0].0, rules[0].1);
      ApplyRulesIsMap(Replace(s, [rules[0].0], rules[0].1), rest);
      MapCharsCompose(s, rules[0], rest);
      assert [rules[0]] + rest == rules;
    }
  }
}
