/** The string routines on NUL-terminated character buffers. */
module CStrings {
  import opened Machine
  import opened Tokens

  const NUL: char := '\0'

  /** A string that fits into a buffer: no NUL inside. */
  predicate Plain(s: string) {
    NUL !in s
  }

  /** The buffer holds s, terminated, at position `at`. */
  predicate Holds(buf: seq<char>, at: nat, s: string) {
    at + |s| < |buf| && buf[at..at + |s|] == s && Plain(s) && buf[at + |s|] == NUL
  }

  /** Character i of a terminated string, its NUL included. */
  function CharAt(s: string, i: nat): char
    requires i <= |s|
  {
    if i < |s| then s[i] else NUL
  }

  lemma HoldsAt(buf: seq<char>, at: nat, s: string, i: nat)
    requires Holds(buf, at, s) && i <= |s|
    ensures buf[at + i] == CharAt(s, i)
  {
    if i < |s| {
      assert buf[at..at + |s|][i] == s[i];
    }
  }

  /** The string one character further on. */
  lemma HoldsTail(buf: seq<char>, at: nat, s: string)
    requires Holds(buf, at, s) && s != ""
    ensures Holds(buf, at + 1, s[1..]) && buf[at] == s[0]
  {
    assert buf[at + 1..at + |s|] == buf[at..at + |s|][1..];
    HoldsAt(buf, at, s, 0);
  }

  method Strlen(buf: array<char>, at: nat, ghost s: string) returns (len: nat)
    requires Holds(buf[..], at, s)
    ensures len == |s|
    ensures buf[at + len] == '\0' && forall i :: at <= i < at + len ==> buf[i] != '\0'
  {
    len := 0;
    HoldsAt(buf[..], at, s, 0);
    while buf[at + len] != NUL
      invariant len <= |s|
      decreases |s| - len
    {
      HoldsAt(buf[..], at, s, len);
      len := len + 1;
      HoldsAt(buf[..], at, s, len);
    }
    HoldsAt(buf[..], at, s, len);
    forall i | at <= i < at + len
      ensures buf[i] != NUL
    {
      HoldsAt(buf[..], at, s, i - at);
    }
  }

  /** The sign is that of the first difference, as unsigned characters, and only equal strings
      compare as 0. */
  method Strcmp(a: string, b: string) returns (r: int)
    requires Plain(a) && Plain(b)
    ensures r == 0 <==> a == b
    ensures r != 0 ==>
              exists i: nat ::
                i <= |a| && i <= |b| && a[..i] == b[..i] && r == CharAt(a, i) as int - CharAt(b, i) as int
  {
    var i := 0;
    while i < |a|
      invariant i <= |a| && i <= |b| && a[..i] == b[..i]
      decreases |a| - i
    {
      if a[i] != CharAt(b, i) {
        break;
      }
      assert i < |b|;
      i := i + 1;
    }
    r := CharAt(a, i) as int - CharAt(b, i) as int;
    if r == 0 {
      assert i == |a| == |b|;
      assert a == a[..i] && b == b[..i];
    }
  }

  /** A fresh copy of the string at src[at..]. */
  method Strdup(src: array<char>, at: nat, ghost s: string) returns (dst: array<char>)
    requires Holds(src[..], at, s)
    ensures fresh(dst) && dst.Length == |s| + 1 && Holds(dst[..], 0, s)
  {
    var len := Strlen(src, at, s);
    dst := new char[len + 1](_ => NUL);
    for i := 0 to len + 1
      invariant forall k :: 0 <= k < i ==> dst[k] == src[at + k]
    {
      dst[i] := src[at + i];
    }
    forall k | 0 <= k < |s|
      ensures dst[k] == s[k]
    {
      HoldsAt(src[..], at, s, k);
    }
    HoldsAt(src[..], at, s, |s|);
    assert dst[..][0..|s|] == s;
  }

  /** strsep: the token starts where the cursor was, the delimiter that ends it is overwritten
      with NUL, and the cursor moves past it, or becomes null at the end of the string. */
  method Strsep(buf: array<char>, cursor: Option<nat>, delims: string, ghost s: string)
    returns (token: Option<nat>, cursor': Option<nat>)
    requires Plain(delims) && (cursor.Some? ==> Holds(buf[..], cursor.value, s))
    modifies buf
    ensures cursor.None? ==> token.None? && cursor'.None? && buf[..] == old(buf[..])
    ensures cursor.Some? ==>
              var (t, rest) := Separate(s, delims);
              && token == cursor && Holds(buf[..], token.value, t)
              && cursor' == (if rest.None? then None else Some(cursor.value + |t| + 1))
              && (rest.Some? ==> Holds(buf[..], cursor'.value, rest.value))
              && buf[..] == (if rest.None? then old(buf[..]) else old(buf[..])[cursor.value + |t| := '\0'])
  {
    if cursor.None? {
      return None, None;
    }
    var start := cursor.value;
    token := Some(start);
    ghost var k := TokenLength(s, delims);
    var i := 0;
    while true
      invariant 0 <= i <= k && buf[..] == old(buf[..])
      decreases k - i
    {
      HoldsAt(buf[..], start, s, i);
      var c := buf[start + i];
      var span := 0;
      while span <= |delims|
        invariant 0 <= span <= |delims| + 1
        invariant c !in delims[..if span <= |delims| then span else |delims|]
        invariant span == |delims| + 1 ==> c != NUL
      {
        var sc := CharAt(delims, span);
        if sc == c {
          assert i == k;
          if c == NUL {
            cursor' := None;
            assert i == |s| && s[..k] == s;
          } else {
            buf[start + i] := NUL;
            cursor' := Some(start + i + 1);
            TokenHeld(old(buf[..]), buf[..], start, s, k);
          }
          return;
        }
        span := span + 1;
      }
      assert delims[..|delims|] == delims;
      i := i + 1;
    }
  }

  lemma TokenHeld(before: seq<char>, after: seq<char>, at: nat, s: string, k: nat)
    requires Holds(before, at, s) && k < |s| && after == before[at + k := NUL]
    ensures Holds(after, at, s[..k]) && Holds(after, at + k + 1, s[k + 1..])
  {
    forall i | 0 <= i < |s|
      ensures before[at + i] == s[i]
    {
      HoldsAt(before, at, s, i);
    }
    assert after[at..at + k] == s[..k];
    assert after[at + k + 1..at + |s|] == s[k + 1..];
  }

  method Text(buf: array<char>, at: nat, ghost s: string) returns (text: string)
    requires Holds(buf[..], at, s)
    ensures text == s
  {
    var len := Strlen(buf, at, s);
    text := buf[at..at + len];
  }

  /** The text still to be read from the cursor on, None for a null cursor. */
  predicate Reads(buf: seq<char>, cursor: Option<nat>, rest: Option<string>) {
    cursor.Some? == rest.Some? && (rest.Some? ==> Holds(buf, cursor.value, rest.value))
  }

  /** strsep with the token's text copied out. */
  method NextToken(buf: array<char>, cursor: Option<nat>, delims: string, ghost rest: Option<string>)
    returns (token: Option<string>, cursor': Option<nat>)
    requires Plain(delims) && Reads(buf[..], cursor, rest)
    modifies buf
    ensures rest.None? ==> token.None? && Reads(buf[..], cursor', None)
    ensures rest.Some? ==>
              var (t, next) := Separate(rest.value, delims);
              token == Some(t) && Reads(buf[..], cursor', next)
  {
    ghost var text := if rest.Some? then rest.value else "";
    var start;
    start, cursor' := Strsep(buf, cursor, delims, text);
    if start.None? {
      return None, cursor';
    }
    var word := Text(buf, start.value, Separate(text, delims).0);
    token := Some(word);
  }

  /** Calling strsep until it returns null hands out exactly the split of the original text. */
  method TokenLoop(buf: array<char>, delims: string, ghost s: string) returns (tokens: seq<string>)
    requires Plain(delims) && Holds(buf[..], 0, s)
    modifies buf
    ensures tokens == Split(s, delims)
  {
    CallsAreSplit(s, delims);
    tokens := [];
    var cursor := Some(0);
    ghost var rest, all := Some(s), Split(s, delims);
    while true
      invariant Reads(buf[..], cursor, rest)
      invariant |tokens| <= |all| && tokens == all[..|tokens|] && Calls(rest, delims) == all[|tokens|..]
      decreases if rest.Some? then |rest.value| + 1 else 0
    {
      var token;
      token, cursor := NextToken(buf, cursor, delims, rest);
      if token.None? {
        break;
      }
      rest := Separate(rest.value, delims).1;
      assert all[|tokens|..][0] == token.value && all[|tokens|..][1..] == Calls(rest, delims);
      tokens := tokens + [token.value];
    }
  }
}
