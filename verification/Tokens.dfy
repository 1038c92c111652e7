/** Splitting a string at delimiter characters: what strsep does to the text it is given, and
    what calling it over and over amounts to. */
module Tokens {
  import opened Machine

  /** Length of the first token: up to the first delimiter or the end. */
  function TokenLength(s: string, delims: string): (k: nat)
    ensures k <= |s|
    ensures forall i :: 0 <= i < k ==> s[i] !in delims
    ensures k < |s| ==> s[k] in delims
  {
    if s == [] || s[0] in delims then 0 else 1 + TokenLength(s[1..], delims)
  }

  /** One strsep call: the token, and the text still to be read, None once the end was met. */
  function Separate(s: string, delims: string): (string, Option<string>) {
    var k := TokenLength(s, delims);
    (s[..k], if k < |s| then Some(s[k + 1..]) else None)
  }

  /** The tokens that repeated calls return until one returns null. */
  function Calls(s: Option<string>, delims: string): seq<string>
    decreases if s.Some? then |s.value| + 1 else 0
  {
    if s.None? then []
    else
      var (token, rest) := Separate(s.value, delims);
      [token] + Calls(rest, delims)
  }

  /** The split of a string, character by character. */
  function Split(s: string, delims: string): (r: seq<string>)
    ensures |r| > 0
  {
    if s == [] then [[]]
    else
      var rest := Split(s[1..], delims);
      if s[0] in delims then [[]] + rest else [[s[0]] + rest[0]] + rest[1..]
  }

  /** The delimiters of s in order: the characters that strsep overwrites. */
  function Delimiters(s: string, delims: string): string {
    if s == [] then [] else (if s[0] in delims then [s[0]] else []) + Delimiters(s[1..], delims)
  }

  function Join(tokens: seq<string>, separators: string): string
    requires |tokens| == |separators| + 1
  {
    if separators == [] then tokens[0]
    else tokens[0] + [separators[0]] + Join(tokens[1..], separators[1..])
  }

  lemma {:induction false} SplitStep(s: string, delims: string)
    ensures var k := TokenLength(s, delims);
      Split(s, delims) == if k < |s| then [s[..k]] + Split(s[k + 1..], delims) else [s]
  {
    if s == [] {
    } else if s[0] in delims {
      assert s[..0] == [];
    } else {
      var k := TokenLength(s[1..], delims);
      SplitStep(s[1..], delims);
      assert s[..k + 1] == [s[0]] + s[1..][..k];
      assert s[k + 1..] == s[1..][k..];
      if k < |s| - 1 {
        assert s[1..][k + 1..] == s[k + 2..];
      } else {
        assert [s[0]] + s[1..] == s;
      }
    }
  }

  /** Repeated calls return exactly the split, empty tokens included. */
  lemma {:induction false} CallsAreSplit(s: string, delims: string)
    ensures Calls(Some(s), delims) == Split(s, delims)
    decreases |s|
  {
    SplitStep(s, delims);
    var k := TokenLength(s, delims);
    if k < |s| {
      CallsAreSplit(s[k + 1..], delims);
    } else {
      assert s[..k] == s;
      assert Calls(None, delims) == [];
    }
  }

  lemma JoinSkip(c: char, tokens: seq<string>, separators: string)
    requires |tokens| == |separators| + 1
    ensures Join([""] + tokens, [c] + separators) == [c] + Join(tokens, separators)
  {
    var t, u := [""] + tokens, [c] + separators;
    assert t[1..] == tokens && u[1..] == separators;
    assert "" + [c] == [c];
  }

  lemma JoinCons(c: char, tokens: seq<string>, separators: string)
    requires |tokens| == |separators| + 1
    ensures Join([[c] + tokens[0]] + tokens[1..], separators) == [c] + Join(tokens, separators)
  {
    var t := [[c] + tokens[0]] + tokens[1..];
    assert t[0] == [c] + tokens[0] && t[1..] == tokens[1..];
    if separators != [] {
      ConsFirst(c, tokens[0], [separators[0]], Join(tokens[1..], separators[1..]));
    }
  }

  lemma ConsFirst(c: char, s: string, t: string, u: string)
    ensures [c] + s + t + u == [c] + (s + t + u)
  {
  }

  /** One token more than there are delimiters, and putting the overwritten delimiters back
      between them gives the original. */
  lemma {:induction false} JoinRestores(s: string, delims: string)
    ensures |Split(s, delims)| == |Delimiters(s, delims)| + 1
    ensures Join(Split(s, delims), Delimiters(s, delims)) == s
    ensures forall i, c :: 0 <= i < |Split(s, delims)| && c in Split(s, delims)[i] ==> c !in delims
  {
    if s != [] {
      JoinRestores(s[1..], delims);
      var rest, seps := Split(s[1..], delims), Delimiters(s[1..], delims);
      if s[0] in delims {
        JoinSkip(s[0], rest, seps);
      } else {
        JoinCons(s[0], rest, seps);
        assert Delimiters(s, delims) == seps;
      }
      assert [s[0]] + s[1..] == s;
    }
  }
}
