/**
 * Splitting a string on a single separator character, as Rust's `str::split(char)`
 * does it: every separator ends one token and starts the next, so a string with
 * k separators yields k + 1 tokens, empty ones included.
 */
module Text {

  /** Number of occurrences of `c` in `s`. */
  function Occurrences(s: string, c: char): (n: nat)
    ensures n <= |s|
    ensures n == 0 <==> c !in s
  {
    if s == [] then 0
    else (if s[0] == c then 1 else 0) + Occurrences(s[1..], c)
  }

  /**
   * The tokens of `[c] + s`, given the tokens `r` of `s`: a separator starts a new
   * empty token, any other character goes to the front of the first token.
   */
  function Extend(c: char, sep: char, r: seq<string>): (e: seq<string>)
    requires |r| > 0
    ensures |e| == |r| + (if c == sep then 1 else 0)
    ensures (forall i :: 0 <= i < |r| ==> sep !in r[i]) ==> forall i :: 0 <= i < |e| ==> sep !in e[i]
  {
    if c == sep then [""] + r else [[c] + r[0]] + r[1..]
  }

  /** The tokens of `s` between occurrences of `sep`, in order. */
  function Split(s: string, sep: char): (tokens: seq<string>)
    ensures |tokens| == Occurrences(s, sep) + 1
    ensures forall i :: 0 <= i < |tokens| ==> sep !in tokens[i]
  {
    if s == [] then [""] else Extend(s[0], sep, Split(s[1..], sep))
  }

  /** The tokens glued back together with `sep` between consecutive ones. */
  function Join(tokens: seq<string>, sep: char): string
  {
    if |tokens| == 0 then ""
    else if |tokens| == 1 then tokens[0]
    else tokens[0] + [sep] + Join(tokens[1..], sep)
  }

  /** One unfolding of Split on a string with a known first character. */
  lemma SplitCons(c: char, s: string, sep: char)
    ensures Split([c] + s, sep) == Extend(c, sep, Split(s, sep))
  {
    assert ([c] + s)[1..] == s;
  }

  /** Joining a first token in front of at least one more. */
  lemma JoinCons(x: string, rest: seq<string>, sep: char)
    requires |rest| > 0
    ensures Join([x] + rest, sep) == x + [sep] + Join(rest, sep)
  {
    assert ([x] + rest)[1..] == rest;
  }

  /** Joining after one more character of input puts that character in front. */
  lemma JoinExtend(c: char, sep: char, r: seq<string>)
    requires |r| > 0
    ensures Join(Extend(c, sep, r), sep) == [c] + Join(r, sep)
  {
    if c == sep {
      JoinCons("", r, sep);
    } else if |r| == 1 {
      assert Extend(c, sep, r) == [[c] + r[0]];
    } else {
      assert r == [r[0]] + r[1..];
      JoinCons(r[0], r[1..], sep);
      JoinCons([c] + r[0], r[1..], sep);
    }
  }

  /** Joining the tokens of a split restores the original string. */
  lemma {:induction false} JoinSplit(s: string, sep: char)
    ensures Join(Split(s, sep), sep) == s
  {
    if s != [] {
      var c, t := s[0], s[1..];
      calc {
        Join(Split(s, sep), sep);
        Join(Extend(c, sep, Split(t, sep)), sep);
        { JoinExtend(c, sep, Split(t, sep)); }
        [c] + Join(Split(t, sep), sep);
        { JoinSplit(t, sep); }
        [c] + t;
      }
    }
  }

  /** Splitting a string whose first part `t` has no separator: `t` becomes the head of the first token. */
  lemma {:induction false} SplitAfterPrefix(t: string, u: string, sep: char)
    requires sep !in t
    ensures Split(t + u, sep) == [t + Split(u, sep)[0]] + Split(u, sep)[1..]
  {
    var r := Split(u, sep);
    if t == [] {
      assert t + u == u;
      assert t + r[0] == r[0];
      assert [r[0]] + r[1..] == r;
    } else {
      var c, t' := t[0], t[1..];
      calc {
        Split(t + u, sep);
        { assert t + u == [c] + (t' + u); }
        Split([c] + (t' + u), sep);
        { SplitCons(c, t' + u, sep); }
        Extend(c, sep, Split(t' + u, sep));
        { SplitAfterPrefix(t', u, sep); }
        Extend(c, sep, [t' + r[0]] + r[1..]);
        { assert [c] + (t' + r[0]) == t + r[0]; }
        [t + r[0]] + r[1..];
      }
    }
  }

  /** Splitting tokens that were joined gives the same tokens back. */
  lemma {:induction false} SplitJoin(tokens: seq<string>, sep: char)
    requires |tokens| > 0
    requires forall i :: 0 <= i < |tokens| ==> sep !in tokens[i]
    ensures Split(Join(tokens, sep), sep) == tokens
  {
    if |tokens| == 1 {
      SplitAfterPrefix(tokens[0], "", sep);
      assert tokens[0] + "" == tokens[0];
    } else {
      var rest := tokens[1..];
      SplitJoin(rest, sep);
      var u := [sep] + Join(rest, sep);
      assert Join(tokens, sep) == tokens[0] + u;
      SplitAfterPrefix(tokens[0], u, sep);
      SplitCons(sep, Join(rest, sep), sep);
      assert tokens[0] + "" == tokens[0];
      assert tokens == [tokens[0]] + rest;
    }
  }

  /** Extending the first token commutes with appending tokens on the right. */
  lemma ExtendConcat(c: char, sep: char, r: seq<string>, rq: seq<string>)
    requires |r| > 0
    ensures Extend(c, sep, r + rq) == Extend(c, sep, r) + rq
  {
    assert (r + rq)[1..] == r[1..] + rq;
  }

  /** Splitting at one separator: the tokens on its left followed by the tokens on its right. */
  lemma {:induction false} SplitConcat(p: string, q: string, sep: char)
    ensures Split(p + [sep] + q, sep) == Split(p, sep) + Split(q, sep)
  {
    if p == [] {
      assert p + [sep] + q == [sep] + q;
      SplitCons(sep, q, sep);
    } else {
      var c, p' := p[0], p[1..];
      calc {
        Split(p + [sep] + q, sep);
        { assert p + [sep] + q == [c] + (p' + [sep] + q); }
        Split([c] + (p' + [sep] + q), sep);
        { SplitCons(c, p' + [sep] + q, sep); }
        Extend(c, sep, Split(p' + [sep] + q, sep));
        { SplitConcat(p', q, sep); }
        Extend(c, sep, Split(p', sep) + Split(q, sep));
        { ExtendConcat(c, sep, Split(p', sep), Split(q, sep)); }
        Extend(c, sep, Split(p', sep)) + Split(q, sep);
        Split(p, sep) + Split(q, sep);
      }
    }
  }
}
