/** printf: the format interpreter, against a rendering function that goes character by
    character. */
module Printf {
  import opened Machine
  import opened CStrings
  import opened Numerals

  /** A variadic argument: a 32-bit word, or a pointer to a string. */
  datatype Arg = Word(n: u32) | Text(s: string)

  predicate IsConversion(c: char) {
    c == 'c' || c == 's' || c == 'd' || c == 'x'
  }

  /** Whether the argument is of the kind the conversion fetches. */
  predicate Fits(c: char, arg: Arg) {
    if c == 's' then arg.Text? && Plain(arg.s) else arg.Word?
  }

  /** The text of one conversion. %d prints its word as an unsigned number. */
  function Converted(c: char, arg: Arg): string
    requires IsConversion(c) && Fits(c, arg)
  {
    if c == 'c' then [(arg.n % 256) as char]
    else if c == 's' then arg.s
    else Numeral(arg.n, if c == 'd' then 10 else 16)
  }

  /** What a format comes to: the text it prints and how many arguments it takes. */
  datatype Output = Output(text: string, taken: nat)

  /** Some text and some arguments taken before the rest. */
  function Before(text: string, taken: nat, rest: Option<Output>): Option<Output> {
    match rest
    case None => None
    case Some(o) => Some(Output(text + o.text, taken + o.taken))
  }

  lemma BeforeTwice(s: string, m: nat, t: string, n: nat, rest: Option<Output>)
    ensures Before(s, m, Before(t, n, rest)) == Before(s + t, m + n, rest)
  {
    if rest.Some? {
      assert s + (t + rest.value.text) == s + t + rest.value.text;
    }
  }

  /** What the format from position p on comes to, with the arguments from the a-th on. From a
      malformed conversion on it is the format itself. None if a conversion before that finds no
      argument of its kind. */
  function Render(f: string, p: nat, args: seq<Arg>, a: nat): Option<Output>
    requires p <= |f|
    decreases |f| - p
  {
    if p == |f| then Some(Output("", 0))
    else if f[p] != '%' then Before([f[p]], 0, Render(f, p + 1, args, a))
    else if p + 1 == |f| then Some(Output(f[p..], 0))
    else if f[p + 1] == '%' then Before(['%'], 0, Render(f, p + 2, args, a))
    else if !IsConversion(f[p + 1]) then Some(Output(f[p..], 0))
    else if a < |args| && Fits(f[p + 1], args[a])
      then Before(Converted(f[p + 1], args[a]), 1, Render(f, p + 2, args, a + 1))
    else None
  }

  /** A run of ordinary characters stands for itself. */
  lemma {:induction false} LiteralRun(f: string, p: nat, n: nat, args: seq<Arg>, a: nat)
    requires p + n <= |f| && forall i :: p <= i < p + n ==> f[i] != '%'
    ensures Render(f, p, args, a) == Before(f[p..p + n], 0, Render(f, p + n, args, a))
    decreases n
  {
    var rest := Render(f, p + n, args, a);
    if n == 0 {
      BeforeEmpty(rest);
      assert f[p..p] == "";
    } else {
      LiteralRun(f, p + 1, n - 1, args, a);
      BeforeTwice([f[p]], 0, f[p + 1..p + n], 0, rest);
      assert f[p..p + n] == [f[p]] + f[p + 1..p + n];
    }
  }

  lemma BeforeEmpty(rest: Option<Output>)
    ensures Before("", 0, rest) == rest
  {
    if rest.Some? {
      assert "" + rest.value.text == rest.value.text;
    }
  }

  /** Where the characters of a literal piece start: a doubled % drops its first one. */
  function Start(f: string, p: nat): nat
    requires p < |f|
  {
    if f[p] == '%' then p + 1 else p
  }

  /** A literal piece: one character taken as it is, the second of a doubled % included, and the
      ordinary ones after it. */
  lemma LiteralPiece(f: string, p: nat, n: nat, args: seq<Arg>, a: nat)
    requires p < |f| && 1 <= n && Start(f, p) + n <= |f|
    requires f[p] == '%' ==> f[p + 1] == '%'
    requires forall i :: Start(f, p) < i < Start(f, p) + n ==> f[i] != '%'
    ensures Render(f, p, args, a)
         == Before(f[Start(f, p)..Start(f, p) + n], 0, Render(f, Start(f, p) + n, args, a))
  {
    var at := Start(f, p);
    LiteralRun(f, at + 1, n - 1, args, a);
    BeforeTwice([f[at]], 0, f[at + 1..at + n], 0, Render(f, at + n, args, a));
    assert f[at..at + n] == [f[at]] + f[at + 1..at + n];
  }

  // ----- The interpreter

  /** Where the output goes: the serial port or the screen. */
  class Sink {
    var text: string

    constructor ()
      ensures text == ""
    {
      text := "";
    }

    method Write(data: string)
      modifies this
      ensures text == old(text) + data
    {
      text := text + data;
    }
  }

  /** Prints a number: countDigit characters of what itos leaves in a buffer. The buffer has a
      cell for each of them and none for the NUL that itos writes; the last cell of `str` here is
      the one behind the buffer, and `behind` is what it holds afterwards. */
  method PrintNumber(n: u32, base: u32, sink: Sink) returns (behind: char)
    requires base == 10 || base == 16
    modifies sink
    ensures sink.text == old(sink.text) + Numeral(n, base) && behind == NUL
  {
    var numChars := CountDigit(n, base);
    var str := new char[numChars + 1](_ => '?');
    Itos(n, str, base);
    sink.Write(str[..numChars]);
    behind := str[numChars];
  }

  method PrintConverted(c: char, arg: Arg, sink: Sink)
    requires IsConversion(c) && Fits(c, arg)
    modifies sink
    ensures sink.text == old(sink.text) + Converted(c, arg)
  {
    if c == 'c' {
      sink.Write([(arg.n % 256) as char]);
    } else if c == 's' {
      sink.Write(arg.s);
    } else if c == 'd' {
      var behind := PrintNumber(arg.n, 10, sink);
    } else {
      var behind := PrintNumber(arg.n, 16, sink);
    }
  }

  /** The length of the literal piece at `at`: one character, and all up to the next % or the
      end. */
  method PieceLength(f: string, at: nat) returns (amount: nat)
    requires Plain(f) && at < |f|
    ensures 1 <= amount && at + amount <= |f|
    ensures forall i :: at < i < at + amount ==> f[i] != '%'
  {
    amount := 1;
    while CharAt(f, at + amount) != NUL && CharAt(f, at + amount) != '%'
      invariant 1 <= amount && at + amount <= |f|
      invariant forall i :: at < i < at + amount ==> f[i] != '%'
      decreases |f| - at - amount
    {
      amount := amount + 1;
    }
  }

  /** Prints the literal piece at p. */
  method PrintLiteral(f: string, args: seq<Arg>, sink: Sink, p: nat, used: nat) returns (p': nat, ghost text: string)
    requires Plain(f) && p < |f| && (f[p] == '%' ==> p + 1 < |f| && f[p + 1] == '%')
    modifies sink
    ensures sink.text == old(sink.text) + text && p < p' <= |f|
    ensures Render(f, p, args, used) == Before(text, 0, Render(f, p', args, used))
  {
    var at := Start(f, p);
    var amount := PieceLength(f, at);
    sink.Write(f[at..at + amount]);
    LiteralPiece(f, p, amount, args, used);
    p', text := at + amount, f[at..at + amount];
  }

  /** One turn of the loop: it prints some text, takes some arguments, and leaves the rest of the
      format. */
  method Turn(f: string, args: seq<Arg>, sink: Sink, p: nat, used: nat)
    returns (p': nat, used': nat, ghost text: string)
    requires Plain(f) && p < |f| && Render(f, p, args, used).Some?
    modifies sink
    ensures sink.text == old(sink.text) + text && p < p' <= |f| && used <= used'
    ensures Render(f, p, args, used) == Before(text, used' - used, Render(f, p', args, used'))
  {
    if f[p] != '%' || CharAt(f, p + 1) == '%' {
      p', text := PrintLiteral(f, args, sink, p, used);
      used' := used;
    } else if IsConversion(CharAt(f, p + 1)) {
      PrintConverted(f[p + 1], args[used], sink);
      p', used', text := p + 2, used + 1, Converted(f[p + 1], args[used]);
    } else {
      sink.Write(f[p..]);
      p', used', text := |f|, used, f[p..];
      assert f[p..] + "" == f[p..];
    }
  }

  /** Interprets the format. It ends on every format, takes one argument for each conversion up
      to the first malformed one, and writes exactly what the format stands for. */
  method Printf(f: string, args: seq<Arg>, sink: Sink) returns (used: nat)
    requires Plain(f) && Render(f, 0, args, 0).Some?
    modifies sink
    ensures old(sink.text) <= sink.text
    ensures Render(f, 0, args, 0) == Some(Output(sink.text[|old(sink.text)|..], used))
  {
    ghost var was := sink.text;
    ghost var sofar := "";
    var p := 0;
    used := 0;
    BeforeEmpty(Render(f, 0, args, 0));
    while CharAt(f, p) != NUL
      invariant p <= |f| && sink.text == was + sofar
      invariant Render(f, 0, args, 0) == Before(sofar, used, Render(f, p, args, used))
      decreases |f| - p
    {
      ghost var text;
      ghost var p0, used0 := p, used;
      p, used, text := Turn(f, args, sink, p, used);
      BeforeTwice(sofar, used0, text, used - used0, Render(f, p, args, used));
      assert was + sofar + text == was + (sofar + text);
      sofar := sofar + text;
    }
    assert sofar + "" == sofar;
  }

  // ----- Formats compose

  /** No malformed conversion from p on. */
  predicate WellFormed(f: string, p: nat)
    requires p <= |f|
    decreases |f| - p
  {
    if p == |f| then true
    else if f[p] != '%' then WellFormed(f, p + 1)
    else p + 1 < |f| && (f[p + 1] == '%' || IsConversion(f[p + 1])) && WellFormed(f, p + 2)
  }

  /** What follows a position does not depend on what stands in front of it. */
  lemma {:induction false} Shift(u: string, g: string, p: nat, args: seq<Arg>, a: nat)
    requires p <= |g|
    ensures Render(u + g, |u| + p, args, a) == Render(g, p, args, a)
    decreases |g| - p
  {
    assert (u + g)[|u| + p..] == g[p..];
    if p < |g| {
      assert (u + g)[|u| + p] == g[p];
      Shift(u, g, p + 1, args, a);
      if p + 1 < |g| {
        assert (u + g)[|u| + p + 1] == g[p + 1];
        Shift(u, g, p + 2, args, a);
        Shift(u, g, p + 2, args, a + 1);
      }
    }
  }

  /** The output o, then that of format g with the arguments that o has left. */
  function Then(o: Option<Output>, g: string, args: seq<Arg>, a: nat): Option<Output> {
    match o
    case None => None
    case Some(first) => Before(first.text, first.taken, Render(g, 0, args, a + first.taken))
  }

  lemma ThenBefore(text: string, n: nat, o: Option<Output>, g: string, args: seq<Arg>, a: nat)
    ensures Then(Before(text, n, o), g, args, a) == Before(text, n, Then(o, g, args, a + n))
  {
    if o.Some? {
      BeforeTwice(text, n, o.value.text, o.value.taken, Render(g, 0, args, a + n + o.value.taken));
    }
  }

  lemma {:induction false} ComposesFrom(f: string, g: string, p: nat, args: seq<Arg>, a: nat)
    requires p <= |f| && WellFormed(f, p)
    ensures Render(f + g, p, args, a) == Then(Render(f, p, args, a), g, args, a)
    decreases |f| - p
  {
    if p == |f| {
      Shift(f, g, 0, args, a);
      BeforeEmpty(Render(g, 0, args, a));
    } else if f[p] != '%' {
      ComposesFrom(f, g, p + 1, args, a);
      ThenBefore([f[p]], 0, Render(f, p + 1, args, a), g, args, a);
    } else if f[p + 1] == '%' {
      ComposesFrom(f, g, p + 2, args, a);
      ThenBefore(['%'], 0, Render(f, p + 2, args, a), g, args, a);
    } else if a < |args| && Fits(f[p + 1], args[a]) {
      ComposesFrom(f, g, p + 2, args, a + 1);
      ThenBefore(Converted(f[p + 1], args[a]), 1, Render(f, p + 2, args, a + 1), g, args, a);
    }
  }

  /** Printing a well-formed format followed by any other prints the one and then the other, which
      goes on with the arguments that the first has left. */
  lemma Composes(f: string, g: string, args: seq<Arg>)
    requires WellFormed(f, 0) && Render(f, 0, args, 0).Some?
    ensures var o := Render(f, 0, args, 0).value;
      Render(f + g, 0, args, 0) == Before(o.text, o.taken, Render(g, 0, args, o.taken))
  {
    ComposesFrom(f, g, 0, args, 0);
  }

  /** From the first malformed conversion on the format is printed as it is, and no argument is
      taken any more. */
  lemma MalformedIsVerbatim(f: string, g: string, args: seq<Arg>)
    requires WellFormed(f, 0) && Render(f, 0, args, 0).Some?
    requires g != "" && g[0] == '%' && (|g| > 1 ==> g[1] !in "%csdx")
    ensures var o := Render(f, 0, args, 0).value;
      Render(f + g, 0, args, 0) == Some(Output(o.text + g, o.taken))
  {
    Composes(f, g, args);
    assert g[0..] == g;
  }

  /** The four conversions: a character, a string, and a number in base 10 and in base 16. */
  lemma Conversions(n: u32, s: string)
    requires '\0' !in s
    ensures Render("%c", 0, [Word(n)], 0) == Some(Output([(n % 256) as char], 1))
    ensures Render("%s", 0, [Text(s)], 0) == Some(Output(s, 1))
    ensures var d := Render("%d", 0, [Word(n)], 0); d.Some? && d.value.taken == 1 && Parse(d.value.text, 10) == n
    ensures var x := Render("%x", 0, [Word(n)], 0); x.Some? && x.value.taken == 1 && Parse(x.value.text, 16) == n
  {
    ParseNumeral(n, 10);
    ParseNumeral(n, 16);
    Converts('c', Word(n));
    Converts('s', Text(s));
    Converts('d', Word(n));
    Converts('x', Word(n));
  }

  lemma Converts(c: char, arg: Arg)
    requires IsConversion(c) && Fits(c, arg)
    ensures Render(['%', c], 0, [arg], 0) == Some(Output(Converted(c, arg), 1))
  {
    var f := ['%', c];
    assert Render(f, 2, [arg], 1) == Some(Output("", 0));
    assert Converted(c, arg) + "" == Converted(c, arg);
  }

  // ----- Escaping

  /** Every % written twice. */
  function Doubled(s: string): string {
    if s == "" then "" else (if s[0] == '%' then "%%" else [s[0]]) + Doubled(s[1..])
  }

  /** One character of the string behind the prefix u comes out as itself. */
  lemma {:induction false} DoubledFrom(u: string, s: string)
    ensures Render(u + Doubled(s), |u|, [], 0) == Some(Output(s, 0))
    decreases |s|
  {
    if s != "" {
      var head := if s[0] == '%' then "%%" else [s[0]];
      var f := u + Doubled(s);
      DoubledFrom(u + head, s[1..]);
      assert f == u + head + Doubled(s[1..]) by { Regroup(u, head, Doubled(s[1..])); }
      assert f[|u|] == s[0];
      assert [s[0]] + s[1..] == s;
    }
  }

  lemma Regroup(a: string, b: string, c: string)
    ensures a + (b + c) == a + b + c
  {
  }

  /** Printing a string with every % doubled prints that string, and takes no argument. */
  lemma DoubledPrintsItself(s: string)
    ensures Render(Doubled(s), 0, [], 0) == Some(Output(s, 0))
  {
    DoubledFrom("", s);
    assert "" + Doubled(s) == Doubled(s);
  }
}
