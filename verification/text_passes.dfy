/** Sequential single-character replacement passes over a string, as PHP's
    `preg_replace` and `str_replace` perform them for a one-character needle,
    and the per-character maps such a sequence of passes amounts to. */
module TextPasses {

  /** One replacement rule: every `needle` becomes `repl`. */
  datatype Rule = Rule(needle: char, repl: string)

  /** One pass: scans `s` left to right and replaces every occurrence of
      `needle` by `repl`; replaced text is never scanned again. */
  function Replace(s: string, needle: char, repl: string): (r: string)
    ensures forall i | 0 <= i < |r| :: (r[i] in s && r[i] != needle) || r[i] in repl
    ensures needle !in s ==> r == s
  {
    if s == [] then []
    else (if s[0] == needle then repl else [s[0]]) + Replace(s[1..], needle, repl)
  }

  /** Number of occurrences of `c` in `s`. */
  function Count(s: string, c: char): nat
  {
    if s == [] then 0 else (if s[0] == c then 1 else 0) + Count(s[1..], c)
  }

  /** The passes of `rules`, applied one after another to the whole string. */
  function ReplacePasses(s: string, rules: seq<Rule>): (r: string)
    decreases |rules|
  {
    if rules == [] then s
    else ReplacePasses(Replace(s, rules[0].needle, rules[0].repl), rules[1..])
  }

  /** Applies `f` to every character and concatenates the results. */
  function FlatMap(s: string, f: char -> string): string
  {
    if s == [] then [] else f(s[0]) + FlatMap(s[1..], f)
  }

  /** A pass works on each character on its own: it distributes over concatenation. */
  lemma {:induction false} ReplaceAppend(a: string, b: string, needle: char, repl: string)
    ensures Replace(a + b, needle, repl) == Replace(a, needle, repl) + Replace(b, needle, repl)
  {
    if a == [] {
      assert a + b == b;
    } else {
      assert (a + b)[0] == a[0];
      assert (a + b)[1..] == a[1..] + b;
      ReplaceAppend(a[1..], b, needle, repl);
    }
  }

  /** So does a whole sequence of passes. */
  lemma {:induction false} ReplacePassesAppend(a: string, b: string, rules: seq<Rule>)
    ensures ReplacePasses(a + b, rules) == ReplacePasses(a, rules) + ReplacePasses(b, rules)
    decreases |rules|
  {
    if rules != [] {
      var n, repl := rules[0].needle, rules[0].repl;
      ReplaceAppend(a, b, n, repl);
      ReplacePassesAppend(Replace(a, n, repl), Replace(b, n, repl), rules[1..]);
    }
  }

  lemma {:induction false} FlatMapAppend(a: string, b: string, f: char -> string)
    ensures FlatMap(a + b, f) == FlatMap(a, f) + FlatMap(b, f)
  {
    if a == [] {
      assert a + b == b;
    } else {
      assert (a + b)[0] == a[0];
      assert (a + b)[1..] == a[1..] + b;
      FlatMapAppend(a[1..], b, f);
    }
  }

  /** No pass rewrites a character that an earlier pass put in. */
  predicate NoReintroduction(rules: seq<Rule>) {
    forall i, j | 0 <= i < j < |rules| :: rules[j].needle !in rules[i].repl
  }

  /** What the first rule whose needle is `c` turns `c` into; `c` itself when no rule matches. */
  function FirstRuleFor(rules: seq<Rule>, c: char): string
  {
    if rules == [] then [c]
    else if rules[0].needle == c then rules[0].repl
    else FirstRuleFor(rules[1..], c)
  }

  /** When no pass reintroduces what a later pass rewrites, the passes turn a
      single character into what its first matching rule says, and nothing more. */
  lemma {:induction false} PassesOnChar(c: char, rules: seq<Rule>)
    requires NoReintroduction(rules)
    ensures ReplacePasses([c], rules) == FirstRuleFor(rules, c)
    decreases |rules|
  {
    if rules != [] {
      var n, repl := rules[0].needle, rules[0].repl;
      assert Replace([c], n, repl) == (if c == n then repl else [c]) + Replace([], n, repl);
      if c == n {
        forall j | 0 <= j < |rules[1..]|
          ensures rules[1..][j].needle !in repl
        {
          assert rules[1..][j] == rules[j + 1];
        }
        PassesLeaveUntouched(repl, rules[1..]);
        assert Replace([c], n, repl) == repl;
      } else {
        assert NoReintroduction(rules[1..]) by {
          forall i, j | 0 <= i < j < |rules[1..]|
            ensures rules[1..][j].needle !in rules[1..][i].repl
          {
            assert rules[1..][i] == rules[i + 1] && rules[1..][j] == rules[j + 1];
          }
        }
        PassesOnChar(c, rules[1..]);
      }
    }
  }

  /** Passes whose needles do not occur in `s` leave it as it is. */
  lemma {:induction false} PassesLeaveUntouched(s: string, rules: seq<Rule>)
    requires forall i | 0 <= i < |rules| :: rules[i].needle !in s
    ensures ReplacePasses(s, rules) == s
    decreases |rules|
  {
    if rules != [] {
      PassesLeaveUntouched(s, rules[1..]);
    }
  }

  /** Sequential passes equal one per-character map `f`, provided `f`
      describes what the passes do to each single character of `s`. */
  lemma {:induction false} PassesAreCharMap(s: string, rules: seq<Rule>, f: char -> string)
    requires forall i | 0 <= i < |s| :: ReplacePasses([s[i]], rules) == f(s[i])
    ensures ReplacePasses(s, rules) == FlatMap(s, f)
  {
    if s != [] {
      var rest := s[1..];
      assert s == [s[0]] + rest;
      assert forall i | 0 <= i < |rest| :: rest[i] == s[i + 1];
      PassesAreCharMap(rest, rules, f);
      calc {
        ReplacePasses(s, rules);
        { ReplacePassesAppend([s[0]], rest, rules); }
        ReplacePasses([s[0]], rules) + ReplacePasses(rest, rules);
        f(s[0]) + FlatMap(rest, f);
      }
    } else {
      PassesLeaveUntouched(s, rules);
    }
  }
}
