/** Readers for the two quoted-word forms the escapers produce, used as the
    inverses the escapers are proved against. */
module ShellWords {
  import opened PhpValues

  /** Prepends one character to a word that may be missing. */
  function Prepend(c: char, o: Option<string>): (r: Option<string>)
    ensures r.Some? <==> o.Some?
    ensures r.Some? ==> |r.value| == |o.value| + 1 && r.value[0] == c && r.value[1..] == o.value
  {
    match o
    case None => None
    case Some(w) => Some([c] + w)
  }

  /** How a POSIX shell reads a word made only of single-quoted spans and
      backslash-escaped characters (sections 2.2.1 and 2.2.2 of the POSIX
      Shell Command Language): inside '…' every character stands for itself
      up to the next single quote; outside, a backslash makes the following
      character literal. An unterminated quote, a trailing backslash or any
      other unquoted character is outside this reader and gives None. */
  function ReadQuotedWord(s: string, inQuotes: bool): Option<string>
    decreases |s|
  {
    if s == [] then
      (if inQuotes then None else Some([]))
    else if inQuotes then
      (if s[0] == '\'' then ReadQuotedWord(s[1..], false)
       else Prepend(s[0], ReadQuotedWord(s[1..], true)))
    else if s[0] == '\'' then
      ReadQuotedWord(s[1..], true)
    else if s[0] == '\\' && |s| >= 2 then
      Prepend(s[1], ReadQuotedWord(s[2..], false))
    else
      None
  }

  /** The characters the Windows escaping doubles. */
  const DoubledChars: seq<char> := ['\\', '"', '%']

  /** Undoes the doubling of backslash, double quote and percent; a lone one
      of those characters is not something the doubling produces: None. */
  function Undouble(s: string): Option<string>
    decreases |s|
  {
    if s == [] then Some([])
    else if s[0] in DoubledChars then
      (if |s| >= 2 && s[1] == s[0] then Prepend(s[0], Undouble(s[2..])) else None)
    else Prepend(s[0], Undouble(s[1..]))
  }

  /** Reads a double-quoted word whose special characters are doubled. */
  function UnquoteDoubled(s: string): Option<string>
  {
    if |s| >= 2 && s[0] == '"' && s[|s| - 1] == '"' then Undouble(s[1..|s| - 1]) else None
  }

  /** True when every `c` in `s` is immediately followed by a second `c`,
      the pairs not overlapping: no lone `c` is left for a later reader. */
  predicate Doubled(s: string, c: char)
    decreases |s|
  {
    if s == [] then true
    else if s[0] == c then |s| >= 2 && s[1] == c && Doubled(s[2..], c)
    else Doubled(s[1..], c)
  }

  lemma {:induction false} DoubledAppend(a: string, b: string, c: char)
    requires Doubled(a, c) && Doubled(b, c)
    ensures Doubled(a + b, c)
    decreases |a|
  {
    if a == [] {
      assert a + b == b;
    } else if a[0] == c {
      assert (a + b)[0] == c && (a + b)[1] == c;
      assert (a + b)[2..] == a[2..] + b;
      DoubledAppend(a[2..], b, c);
    } else {
      assert (a + b)[0] == a[0];
      assert (a + b)[1..] == a[1..] + b;
      DoubledAppend(a[1..], b, c);
    }
  }
}
