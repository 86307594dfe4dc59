/** `GetArgumentName` and `GetArgumentValue`, which classify one token as
    positional or named (`--name` or `--name=value`). `CommandFactory.cs` and
    `CommandArgumentInjector.cs` carry identical copies; both binders use the
    single definition here. Both work on `Split('=')`: the name is the first
    segment without its `--`, the value the SECOND segment, so anything after a
    second `=` is dropped. */
module ArgumentSyntax {
  import opened Text
  import opened Metadata

  /** The name of a named token; `None` for a positional one. */
  function ArgumentName(arg: string): (name: Option<string>)
    ensures name.Some? <==> StartsWith(arg, "--")
    ensures name.Some? ==> '=' !in name.value && StartsWith(arg, "--" + name.value)
    ensures name.Some? ==> |arg| == 2 + |name.value| || arg[2 + |name.value|] == '='
  {
    if !StartsWith(arg, "--") then None
    else
      var first := Split(arg, '=')[0];
      Some(first[2..])
  }

  /** The value a token carries: a positional token with its edge quotes
      trimmed, `"true"` for a bare `--name`, and the quote-trimmed segment after
      the first `=` otherwise. */
  function ArgumentValue(arg: string): (value: string)
    ensures !StartsWith(arg, "--") ==> value == Trim(arg, '"')
    ensures StartsWith(arg, "--") && '=' !in arg ==> value == "true"
  {
    if !StartsWith(arg, "--") then Trim(arg, '"')
    else
      var parts := Split(arg, '=');
      if |parts| == 1 then "true"
      else Trim(parts[1], '"')
  }

  /** `--name` with no `=` names `name` and carries `"true"`. */
  lemma FlagToken(n: string)
    requires '=' !in n
    ensures ArgumentName("--" + n) == Some(n)
    ensures ArgumentValue("--" + n) == "true"
  {
    var arg := "--" + n;
    DashesNoSeparator(n);
    SplitNoSeparator(arg, '=');
    assert arg[2..] == n;
  }

  /** `--` in front of a name without `=` adds no `=`. */
  lemma DashesNoSeparator(n: string)
    requires '=' !in n
    ensures '=' !in "--" + n
  {
    var arg := "--" + n;
    forall i | 0 <= i < |arg| ensures arg[i] != '=' {
      if i >= 2 { assert arg[i] == n[i - 2]; }
    }
  }

  /** The first two segments of `--name=value...` are `--name` and `value`. */
  lemma {:induction false} AssignmentSegments(n: string, v: string, rest: string)
    requires '=' !in n && '=' !in v
    requires rest == [] || rest[0] == '='
    ensures |Split("--" + n + "=" + v + rest, '=')| >= 2
    ensures Split("--" + n + "=" + v + rest, '=')[0] == "--" + n
    ensures Split("--" + n + "=" + v + rest, '=')[1] == v
  {
    var head := "--" + n;
    DashesNoSeparator(n);
    assert "--" + n + "=" + v + rest == head + ['='] + (v + rest);
    SplitAtFirst(head, '=', v + rest);
    if rest == [] {
      assert v + rest == v;
      SplitNoSeparator(v, '=');
    } else {
      assert v + rest == v + ['='] + rest[1..];
      SplitAtFirst(v, '=', rest[1..]);
    }
  }

  /** `--name=value` names `name` and carries `value` with its edge quotes
      trimmed; whatever follows a second `=` is ignored. */
  lemma AssignmentToken(n: string, v: string, rest: string)
    requires '=' !in n && '=' !in v
    requires rest == [] || rest[0] == '='
    ensures ArgumentName("--" + n + "=" + v + rest) == Some(n)
    ensures ArgumentValue("--" + n + "=" + v + rest) == Trim(v, '"')
  {
    var arg := "--" + n + "=" + v + rest;
    AssignmentSegments(n, v, rest);
    assert StartsWith(arg, "--");
    assert ("--" + n)[2..] == n;
  }

  /** `--` and `--=x` have the empty name. */
  lemma EmptyNames(x: string)
    requires '=' !in x
    ensures ArgumentName("--") == Some("") && ArgumentValue("--") == "true"
    ensures ArgumentName("--=" + x) == Some("") && ArgumentValue("--=" + x) == Trim(x, '"')
  {
    EmptyFlag();
    EmptyAssignment(x);
  }

  lemma EmptyFlag()
    ensures ArgumentName("--") == Some("") && ArgumentValue("--") == "true"
  {
    var e: string := "";
    FlagToken(e);
    assert "--" + e == "--";
  }

  lemma EmptyAssignment(x: string)
    requires '=' !in x
    ensures ArgumentName("--=" + x) == Some("") && ArgumentValue("--=" + x) == Trim(x, '"')
  {
    var e: string := "";
    var a := "--=" + x;
    assert "--" + e + "=" + x + e == a;
    AssignmentToken(e, x, e);
  }

  /** Reading the value back through `ArgumentValue` (as the injector does
      before converting) changes nothing unless the value itself starts with
      `--`. */
  lemma SecondPassStable(arg: string)
    requires !StartsWith(ArgumentValue(arg), "--")
    ensures ArgumentValue(ArgumentValue(arg)) == ArgumentValue(arg)
  {
    var v := ArgumentValue(arg);
    if StartsWith(arg, "--") && |Split(arg, '=')| == 1 {
      assert v == "true";
      TrimUnchanged("true", '"');
    } else {
      TrimIdempotent(if StartsWith(arg, "--") then Split(arg, '=')[1] else arg, '"');
    }
  }

  /** A quoted positional token that holds `--name=value` loses its quotes in
      the first pass and is parsed as a named token in the second. */
  lemma Reparsed(n: string, w: string)
    requires '=' !in n && '=' !in w && '"' !in n
    requires w == [] || (w[0] != '"' && w[|w| - 1] != '"')
    ensures ArgumentValue("\"--" + n + "=" + w + "\"") == "--" + n + "=" + w
    ensures ArgumentValue(ArgumentValue("\"--" + n + "=" + w + "\"")) == w
  {
    Unquoted(n, w);
    var inner := "--" + n + "=" + w;
    var e: string := "";
    AssignmentToken(n, w, e);
    assert inner + e == inner;
    TrimUnchanged(w, '"');
  }

  /** The first pass drops the quotes around `--name=value`. */
  lemma Unquoted(n: string, w: string)
    requires '"' !in n
    requires w == [] || (w[0] != '"' && w[|w| - 1] != '"')
    ensures ArgumentValue("\"--" + n + "=" + w + "\"") == "--" + n + "=" + w
  {
    var inner := "--" + n + "=" + w;
    var q := "\"--" + n + "=" + w + "\"";
    assert q == ['"'] + inner + ['"'];
    assert q[0] == '"';
    assert inner[0] == '-';
    assert inner[|inner| - 1] != '"' by {
      if w == [] { assert inner[|inner| - 1] == '='; }
      else { assert inner[|inner| - 1] == w[|w| - 1]; }
    }
    TrimSurrounded(inner, '"');
  }
}
