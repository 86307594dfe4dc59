/** `CommandFactory.GetTokens`: one pass over the input line that splits it at
    every space outside double quotes. Quote characters stay in the tokens and
    every split emits the token built so far, so empty tokens survive. */
module Tokenizer {
  import opened Text

  /** After reading `s`, the scanner is inside quotes: each quote character
      toggles the flag, so it is set iff `s` holds an odd number of quotes. */
  predicate InQuotes(s: string) {
    if s == [] then false else InQuotes(s[..|s| - 1]) != (s[|s| - 1] == '"')
  }

  /** The tokens after reading one more character `c` when the tokens so far
      are `prev` and `quoted` tells whether the scanner is inside quotes: an
      unquoted space starts a new token, any other character (quotes
      included) extends the current one. */
  function Step(prev: seq<string>, c: char, quoted: bool): (r: seq<string>)
    requires |prev| >= 1
    ensures |r| >= 1
  {
    if c == ' ' && !quoted then prev + [""]
    else prev[..|prev| - 1] + [prev[|prev| - 1] + [c]]
  }

  /** The tokens of `s`, defined one character at a time in reading order. */
  function Tokens(s: string): (r: seq<string>)
    ensures |r| >= 1
  {
    if s == [] then [""]
    else Step(Tokens(s[..|s| - 1]), s[|s| - 1], InQuotes(s[..|s| - 1]))
  }

  /** Reading one more character is one `Step`. */
  lemma TokensSnoc(s: string, c: char)
    ensures Tokens(s + [c]) == Step(Tokens(s), c, InQuotes(s))
  {
    assert (s + [c])[..|s|] == s;
  }

  /** Every space inside `t` lies after an odd number of quotes in `t`. */
  predicate QuotedSpacesOnly(t: string) {
    forall j :: 0 <= j < |t| && t[j] == ' ' ==> InQuotes(t[..j])
  }

  method GetTokens(input: string) returns (tokens: seq<string>)
    ensures tokens == Tokens(input)
  {
    var output: seq<string> := [];
    var inQuotes := false;
    var current: string := "";
    var i := 0;
    while i < |input|
      invariant 0 <= i <= |input|
      invariant inQuotes == InQuotes(input[..i])
      invariant output + [current] == Tokens(input[..i])
    {
      var c := input[i];
      assert input[..i + 1] == input[..i] + [c];
      TokensSnoc(input[..i], c);
      QuotesSnoc(input[..i], c);
      if c == '"' {
        inQuotes := !inQuotes;
        current := current + [c];
      } else if c == ' ' && !inQuotes {
        output := output + [current];
        current := "";
      } else {
        current := current + [c];
      }
      i := i + 1;
    }
    assert input[..i] == input;
    output := output + [current];
    tokens := output;
  }

  /** Reading one more character toggles the flag iff it is a quote. */
  lemma QuotesSnoc(s: string, c: char)
    ensures InQuotes(s + [c]) == (InQuotes(s) != (c == '"'))
  {
    assert (s + [c])[..|s|] == s;
  }

  /** Joining the tokens with single spaces reproduces the input exactly. */
  lemma {:induction false} JoinTokens(s: string)
    ensures Join(Tokens(s), " ") == s
  {
    if s != [] {
      var init := s[..|s| - 1];
      var c := s[|s| - 1];
      JoinTokens(init);
      var prev := Tokens(init);
      if c == ' ' && !InQuotes(init) {
        JoinSnoc(prev, "", " ");
      } else {
        JoinExtendLast(prev, [c], " ");
      }
      assert init + [c] == s;
    }
  }

  /** The positions of the spaces that lie outside double quotes. */
  function UnquotedSpaces(s: string): set<nat> {
    set i: nat | i < |s| && s[i] == ' ' && !InQuotes(s[..i])
  }

  /** There is one token more than there are spaces outside quotes. */
  lemma {:induction false} TokenCount(s: string)
    ensures |Tokens(s)| == 1 + |UnquotedSpaces(s)|
  {
    if s == [] {
      assert UnquotedSpaces(s) == {};
    } else {
      var n := |s| - 1;
      TokenCount(s[..n]);
      UnquotedSpacesSnoc(s);
    }
  }

  /** The last character adds itself to the unquoted spaces exactly when it
      is a space read outside quotes. */
  lemma UnquotedSpacesSnoc(s: string)
    requires s != []
    ensures var n := |s| - 1;
      UnquotedSpaces(s) == UnquotedSpaces(s[..n]) + (if s[n] == ' ' && !InQuotes(s[..n]) then {n} else {})
  {
    var n := |s| - 1;
    var init := s[..n];
    var A := UnquotedSpaces(s);
    var B := UnquotedSpaces(init) + (if s[n] == ' ' && !InQuotes(init) then {n} else {});
    forall i: nat | i < n ensures (i in A) == (i in B) {
      assert s[..i] == init[..i];
      assert s[i] == init[i];
    }
    assert A == B;
  }

  /** Spaces inside a token are quoted ones; every token but the last has
      balanced quotes; the last is open exactly when the input is. */
  lemma {:induction false} TokensShape(s: string)
    ensures forall k :: 0 <= k < |Tokens(s)| ==> QuotedSpacesOnly(Tokens(s)[k])
    ensures forall k :: 0 <= k < |Tokens(s)| - 1 ==> !InQuotes(Tokens(s)[k])
    ensures InQuotes(Tokens(s)[|Tokens(s)| - 1]) == InQuotes(s)
  {
    if s != [] {
      var n := |s| - 1;
      var init := s[..n];
      var c := s[n];
      TokensShape(init);
      assert init + [c] == s;
      QuotesSnoc(init, c);
      var prev := Tokens(init);
      var last := prev[|prev| - 1];
      if c == ' ' && !InQuotes(init) {
        assert Tokens(s) == prev + [""];
      } else {
        assert Tokens(s) == prev[..|prev| - 1] + [last + [c]];
        ExtendShape(last, c);
      }
    }
  }

  /** Extending a token by a character other than an unquoted space keeps its
      spaces quoted. */
  lemma ExtendShape(last: string, c: char)
    requires QuotedSpacesOnly(last) && !(c == ' ' && !InQuotes(last))
    ensures QuotedSpacesOnly(last + [c])
    ensures InQuotes(last + [c]) == (InQuotes(last) != (c == '"'))
  {
    var t := last + [c];
    QuotesSnoc(last, c);
    forall j | 0 <= j < |t| && t[j] == ' '
      ensures InQuotes(t[..j])
    {
      if j < |last| {
        assert t[..j] == last[..j];
      } else {
        assert t[..j] == last;
      }
    }
  }

  /** Appending characters whose spaces are all quoted (counting the quotes
      already read) only extends the last token. */
  lemma {:induction false} AppendToLast(x: string, y: string)
    requires forall j :: 0 <= j < |y| && y[j] == ' ' ==> InQuotes(x + y[..j])
    ensures Tokens(x + y) == Tokens(x)[..|Tokens(x)| - 1] + [Tokens(x)[|Tokens(x)| - 1] + y]
  {
    var tx := Tokens(x);
    var last := tx[|tx| - 1];
    if y == [] {
      assert x + y == x;
      assert last + y == last;
      assert tx[..|tx| - 1] + [last] == tx;
    } else {
      var m := |y| - 1;
      var y0 := y[..m];
      forall j | 0 <= j < |y0| && y0[j] == ' '
        ensures InQuotes(x + y0[..j])
      {
        assert y0[..j] == y[..j];
      }
      AppendToLast(x, y0);
      var init := tx[..|tx| - 1];
      assert Tokens(x + y0) == init + [last + y0];
      var c := y[m];
      assert y[..m] == y0;
      assert c == ' ' ==> InQuotes(x + y0);
      ExtendLast(x + y0, c, init, last + y0);
      assert y == y0 + [c];
      assert x + y == (x + y0) + [c];
      assert last + y0 + [c] == last + y;
    }
  }

  /** Reading a character other than an unquoted space extends the last
      token. */
  lemma ExtendLast(s: string, c: char, init: seq<string>, w: string)
    requires Tokens(s) == init + [w]
    requires c == ' ' ==> InQuotes(s)
    ensures Tokens(s + [c]) == init + [w + [c]]
  {
    TokensSnoc(s, c);
    StepExtends(init, w, c, InQuotes(s));
  }

  /** A character other than an unquoted space extends the last token. */
  lemma StepExtends(init: seq<string>, w: string, c: char, quoted: bool)
    requires !(c == ' ' && !quoted)
    ensures Step(init + [w], c, quoted) == init + [w + [c]]
  {
    assert (init + [w])[..|init|] == init;
  }

  /** Reading `a` then `b` toggles the flag as often as reading each. */
  lemma {:induction false} QuotesAppend(a: string, b: string)
    ensures InQuotes(a + b) == (InQuotes(a) != InQuotes(b))
  {
    if b != [] {
      var m := |b| - 1;
      QuotesAppend(a, b[..m]);
      assert (a + b)[..|a + b| - 1] == a + b[..m];
    } else {
      assert a + b == a;
    }
  }

  /** The converse round trip: tokens whose spaces are all quoted, all but the
      last with balanced quotes, are exactly what joining them with spaces
      tokenizes back to. */
  lemma {:induction false} TokensOfJoin(ts: seq<string>)
    requires |ts| >= 1
    requires forall k :: 0 <= k < |ts| ==> QuotedSpacesOnly(ts[k])
    requires forall k :: 0 <= k < |ts| - 1 ==> !InQuotes(ts[k])
    ensures Tokens(Join(ts, " ")) == ts
  {
    var n := |ts| - 1;
    var t := ts[n];
    if n == 0 {
      forall j | 0 <= j < |t| && t[j] == ' '
        ensures InQuotes("" + t[..j])
      {
        assert "" + t[..j] == t[..j];
      }
      AppendToLast("", t);
      assert "" + t == t;
    } else {
      var ps := ts[..n];
      assert ps + [t] == ts;
      TokensOfJoin(ps);
      var x := Join(ps, " ");
      JoinSnoc(ps, t, " ");
      TokensShape(x);
      assert !InQuotes(x);
      var x' := x + " ";
      assert x'[..|x'| - 1] == x;
      assert Tokens(x') == ps + [""];
      QuotesSnoc(x, ' ');
      forall j | 0 <= j < |t| && t[j] == ' '
        ensures InQuotes(x' + t[..j])
      {
        QuotesAppend(x', t[..j]);
      }
      AppendToLast(x', t);
      assert Join(ts, " ") == x' + t;
      assert (ps + [""])[..n] == ps;
      assert (ps + [""])[n] + t == t;
      assert Tokens(x' + t) == ps + [t];
    }
  }

  /** A string without quote characters leaves the scanner outside quotes. */
  lemma {:induction false} NoQuotes(s: string)
    requires '"' !in s
    ensures !InQuotes(s)
  {
    if s != [] {
      assert s[..|s| - 1] + [s[|s| - 1]] == s;
      NoQuotes(s[..|s| - 1]);
    }
  }

  /** A string without spaces is a single token. */
  lemma {:induction false} SingleWord(s: string)
    requires ' ' !in s
    ensures Tokens(s) == [s]
  {
    if s != [] {
      var init := s[..|s| - 1];
      assert init + [s[|s| - 1]] == s;
      SingleWord(init);
    }
  }

  /** A word without spaces or quotes followed by a space is one token and an
      empty one. */
  lemma WordThenSpace(name: string)
    requires ' ' !in name && '"' !in name
    ensures Tokens(name + " ") == [name, ""] && !InQuotes(name + " ")
  {
    NoQuotes(name);
    SingleWord(name);
    TokensSnoc(name, ' ');
    QuotesSnoc(name, ' ');
  }

  /** A step does not touch tokens before the last one. */
  lemma StepAfterHead(name: string, T: seq<string>, c: char, quoted: bool)
    requires |T| >= 1
    ensures Step([name] + T, c, quoted) == [name] + Step(T, c, quoted)
  {
    if !(c == ' ' && !quoted) {
      assert ([name] + T)[..|T|] == [name] + T[..|T| - 1];
    }
  }

  /** A first word without spaces or quotes, followed by one space, is the
      first token, and the rest of the line tokenizes on its own: this is how
      `CreateCommand(string)` separates the command name from its arguments. */
  lemma {:induction false} HeadToken(name: string, rest: string)
    requires ' ' !in name && '"' !in name
    ensures Tokens(name + " " + rest) == [name] + Tokens(rest)
  {
    if rest == [] {
      WordThenSpace(name);
      assert name + " " + rest == name + " ";
    } else {
      var r := rest[..|rest| - 1];
      var c := rest[|rest| - 1];
      HeadToken(name, r);
      assert name + " " + rest == (name + " " + r) + [c];
      assert r + [c] == rest;
      TokensSnoc(name + " " + r, c);
      TokensSnoc(r, c);
      WordThenSpace(name);
      QuotesAppend(name + " ", r);
      StepAfterHead(name, Tokens(r), c, InQuotes(r));
    }
  }
}
