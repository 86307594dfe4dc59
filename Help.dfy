/** `HelpCommand`: the example usage of a command, the description of one
    command, the listing of all registered commands and the choice between
    them. Console output is modelled as the sequence of lines handed to
    `Console.WriteLine`. */
module Help {
  import opened Text
  import opened Metadata
  import opened Tokenizer
  import opened ArgumentSyntax
  import opened Coercion
  import opened Registry

  /** The text inside the quotes of the fallback example value. */
  const ExampleString := "example string"

  /** `GetExampleValue(PropertyType)`: `int`, `double` and `bool` have their
      own example; every other type, `int?` and enumerations included, gets a
      quoted string. */
  function ExampleValue(t: ArgType): string {
    if t == Plain(Int32) then "42"
    else if t == Plain(Double) then "3.14"
    else if t == Plain(Boolean) then "true"
    else "\"" + ExampleString + "\""
  }

  /** The example value of a string property is read back as the string
      inside the quotes. */
  lemma StringExampleRead()
    ensures ArgumentValue("\"" + ExampleString + "\"") == ExampleString
  {
    var e := "\"" + ExampleString + "\"";
    assert e[0] == '"';
    assert !StartsWith(e, "--");
    assert ['"'] + ExampleString + ['"'] == e;
    TrimSurrounded(ExampleString, '"');
  }

  /** The example values of `int`, `bool` and `string` properties are
      accepted by the binders' value reading and conversion; the fallback
      shown for an `int?` property is rejected as a format error. */
  lemma ExampleValueAccepted(t: ArgType)
    ensures t == Plain(Int32) ==> ConvertArgumentValue(Some(ArgumentValue(ExampleValue(t))), t) == Converted(Int(42))
    ensures t == Plain(Boolean) ==> ConvertArgumentValue(Some(ArgumentValue(ExampleValue(t))), t) == Converted(Bool(true))
    ensures t == StringType ==> ConvertArgumentValue(Some(ArgumentValue(ExampleValue(t))), t) == Converted(Str(ExampleString))
    ensures t == Nullable(Int32) ==> ConvertArgumentValue(Some(ArgumentValue(ExampleValue(t))), t) == FormatFailure
  {
    if t == Plain(Int32) {
      IntegerExampleAccepted(t);
    } else if t == Plain(Boolean) {
      BooleanExampleAccepted(t);
    } else if t == StringType {
      StringExampleAccepted(t);
    } else if t == Nullable(Int32) {
      NullableExampleRejected(t);
    }
  }

  lemma IntegerExampleAccepted(t: ArgType)
    requires t == Plain(Int32)
    ensures ConvertArgumentValue(Some(ArgumentValue(ExampleValue(t))), t) == Converted(Int(42))
  {
    var v := ExampleValue(t);
    assert v == "42";
    IntegerExampleRead();
    assert ArgumentValue(v) == "42";
    IntegerConverted("42");
  }

  lemma BooleanExampleAccepted(t: ArgType)
    requires t == Plain(Boolean)
    ensures ConvertArgumentValue(Some(ArgumentValue(ExampleValue(t))), t) == Converted(Bool(true))
  {
    var v := ExampleValue(t);
    assert v == "true";
    BooleanExampleRead();
    assert ArgumentValue(v) == "true";
    BooleanConverted("true");
  }

  lemma StringExampleAccepted(t: ArgType)
    requires t == StringType
    ensures ConvertArgumentValue(Some(ArgumentValue(ExampleValue(t))), t) == Converted(Str(ExampleString))
  {
    var v := ExampleValue(t);
    assert v == "\"" + ExampleString + "\"";
    StringExampleRead();
  }

  lemma NullableExampleRejected(t: ArgType)
    requires t == Nullable(Int32)
    ensures ConvertArgumentValue(Some(ArgumentValue(ExampleValue(t))), t) == FormatFailure
  {
    var v := ExampleValue(t);
    assert v == "\"" + ExampleString + "\"";
    StringExampleRead();
    ExampleStringHasNoDigit();
    ParseInt32Rejects(ExampleString);
    IntegerConverted(ExampleString);
    assert ConvertArgumentValue(Some(ExampleString), t) == ConvertArgumentValue(Some(ExampleString), Plain(Int32));
  }

  lemma ExampleStringHasNoDigit()
    ensures forall k :: 0 <= k < |ExampleString| ==> !IsDigit(ExampleString[k])
  {
  }

  lemma IntegerExampleRead()
    ensures ArgumentValue("42") == "42" && ParseInt32("42") == Converted(Int(42))
  {
    IntegerTokenRead();
    IntegerTokenParsed();
  }

  lemma IntegerTokenRead()
    ensures ArgumentValue("42") == "42"
  {
    var e := "42";
    assert e[0] == '4';
    assert !StartsWith(e, "--");
    TrimUnchanged("42", '"');
  }

  lemma IntegerTokenParsed()
    ensures ParseInt32("42") == Converted(Int(42))
  {
    assert IntToString(42) == "42";
    ParseInt32RoundTrip(42);
  }

  lemma BooleanExampleRead()
    ensures ArgumentValue("true") == "true" && ParseBoolean("true") == Converted(Bool(true))
  {
    BooleanTokenRead();
    BooleanTokenParsed();
  }

  lemma BooleanTokenRead()
    ensures ArgumentValue("true") == "true"
  {
    var e := "true";
    assert e[0] == 't';
    assert !StartsWith(e, "--");
    TrimUnchanged(e, '"');
  }

  lemma BooleanTokenParsed()
    ensures ParseBoolean("true") == Converted(Bool(true))
  {
    assert ToLower("true") == ToLower("True");
    ParseBooleanCasing("true", true);
  }

  /** One element of `exampleArguments`: a required property shows its bare
      example value, an optional one `[--name=value]`. */
  function ExampleArgument(s: Slot): string {
    var value := ExampleValue(s.kind);
    if s.required then value else "[--" + s.name + "=" + value + "]"
  }

  /** `exampleArguments` for the properties `slots`, in property order. */
  function ExampleArguments(slots: seq<Slot>): (r: seq<string>)
    ensures |r| == |slots| && forall i :: 0 <= i < |slots| ==> r[i] == ExampleArgument(slots[i])
  {
    seq(|slots|, i requires 0 <= i < |slots| => ExampleArgument(slots[i]))
  }

  /** One more property adds its example argument at the end. */
  lemma ExampleArgumentsSnoc(slots: seq<Slot>, s: Slot)
    ensures ExampleArguments(slots + [s]) == ExampleArguments(slots) + [ExampleArgument(s)]
  {
  }

  /** The string `GetExampleUsage` returns: the first alias, a space and the
      example arguments separated by single spaces. */
  function Usage(t: CommandType): string
    requires t.attribute.Some? && |t.attribute.value.names| > 0
  {
    t.attribute.value.names[0] + " " + Join(ExampleArguments(t.arguments), " ")
  }

  /** `GetExampleUsage(instance)`. `Names.First()` demands at least one
      alias. */
  method GetExampleUsage(t: CommandType) returns (usage: string)
    requires t.attribute.Some? && |t.attribute.value.names| > 0
    ensures usage == Usage(t)
  {
    var properties := t.arguments;
    var exampleArguments: seq<string> := [];
    for i := 0 to |properties|
      invariant exampleArguments == ExampleArguments(properties[..i])
    {
      var argument := properties[i];
      var exampleValue := ExampleValue(argument.kind);
      var name := if argument.required then "" else "--" + argument.name + "=";
      var exampleArgument := name + exampleValue;
      if !argument.required {
        exampleArgument := "[" + exampleArgument + "]";
      }
      assert exampleArgument == ExampleArgument(argument);
      exampleArguments := exampleArguments + [exampleArgument];
      assert properties[..i + 1] == properties[..i] + [argument];
      ExampleArgumentsSnoc(properties[..i], argument);
    }
    assert properties[..|properties|] == properties;
    var exampleCommand := t.attribute.value.names[0];
    usage := exampleCommand + " " + Join(exampleArguments, " ");
  }

  /** A word between quotes, with quote-free and space-free text around it, has
      its spaces inside the quotes and leaves the scanner outside them. */
  lemma QuotedWord(a: string, w: string, b: string)
    requires '"' !in a && '"' !in w && '"' !in b && ' ' !in a && ' ' !in b
    ensures QuotedSpacesOnly(a + "\"" + w + "\"" + b)
    ensures !InQuotes(a + "\"" + w + "\"" + b)
  {
    var q := "\"";
    var t := a + q + w + q + b;
    assert InQuotes(q) by { assert q[..0] == []; }
    NoQuotes(a);
    NoQuotes(w);
    NoQuotes(b);
    QuotesAppend(a, q);
    QuotesAppend(a + q, w);
    QuotesAppend(a + q + w, q);
    QuotesAppend(a + q + w + q, b);
    forall j | 0 <= j < |t| && t[j] == ' '
      ensures InQuotes(t[..j])
    {
      assert |a| + 1 <= j < |a| + 1 + |w|;
      var w' := w[..j - |a| - 1];
      assert t[..j] == a + q + w';
      assert '"' !in w';
      NoQuotes(w');
      QuotesAppend(a + q, w');
    }
  }

  /** Every example argument is read as one token: its only spaces are those
      inside the quoted example string, and it closes every quote it opens. */
  lemma ExampleArgumentToken(s: Slot)
    requires ' ' !in s.name && '"' !in s.name
    ensures QuotedSpacesOnly(ExampleArgument(s)) && !InQuotes(ExampleArgument(s))
  {
    var v := ExampleValue(s.kind);
    assert '"' !in ExampleString;
    var quoted := v == "\"" + ExampleString + "\"";
    if s.required {
      if quoted {
        QuotedWord("", ExampleString, "");
        assert "" + "\"" + ExampleString + "\"" + "" == v;
      } else {
        assert ' ' !in v && '"' !in v;
        NoQuotes(v);
      }
    } else {
      var head := "[--" + s.name + "=";
      assert ' ' !in head && '"' !in head by {
        forall k | 0 <= k < |head| ensures head[k] != ' ' && head[k] != '"' {
          if 3 <= k < |head| - 1 { assert head[k] == s.name[k - 3]; }
        }
      }
      if quoted {
        QuotedWord(head, ExampleString, "]");
        assert head + "\"" + ExampleString + "\"" + "]" == ExampleArgument(s);
      } else {
        var e := ExampleArgument(s);
        assert e == head + v + "]";
        assert ' ' !in e && '"' !in e by {
          forall k | 0 <= k < |e| ensures e[k] != ' ' && e[k] != '"' {
            if k < |head| { assert e[k] == head[k]; }
            else if k < |head| + |v| { assert e[k] == v[k - |head|]; }
          }
        }
        NoQuotes(e);
      }
    }
  }

  /** The usage line, read by the command-line tokenizer, gives back the
      first alias followed by one token per argument in property order. */
  lemma UsageTokens(t: CommandType)
    requires t.attribute.Some? && |t.attribute.value.names| > 0 && |t.arguments| > 0
    requires ' ' !in t.attribute.value.names[0] && '"' !in t.attribute.value.names[0]
    requires forall i :: 0 <= i < |t.arguments| ==> ' ' !in t.arguments[i].name && '"' !in t.arguments[i].name
    ensures Tokens(Usage(t)) == [t.attribute.value.names[0]] + ExampleArguments(t.arguments)
  {
    var args := ExampleArguments(t.arguments);
    forall k | 0 <= k < |args|
      ensures QuotedSpacesOnly(args[k]) && !InQuotes(args[k])
    {
      ExampleArgumentToken(t.arguments[k]);
    }
    TokensOfJoin(args);
    HeadToken(t.attribute.value.names[0], Join(args, " "));
  }

  /** Inside its brackets, the example of an optional property is a named
      token that names the property; the brackets themselves make the whole
      example a positional token. */
  lemma OptionalExampleNamesSlot(s: Slot)
    requires !s.required && '=' !in s.name
    ensures var e := ExampleArgument(s);
      |e| >= 2 && ArgumentName(e) == None
      && ArgumentName(e[1..|e| - 1]) == Some(s.name)
      && ArgumentValue(e[1..|e| - 1]) == ArgumentValue(ExampleValue(s.kind))
  {
    var e := ExampleArgument(s);
    var v := ExampleValue(s.kind);
    assert e[0] == '[';
    assert !StartsWith(e, "--");
    assert e[1..|e| - 1] == "--" + s.name + "=" + v + "";
    assert '=' !in v;
    AssignmentToken(s.name, v, "");
    assert v[0] != '-' by {
      if s.kind == Plain(Int32) { assert v == "42"; }
      else if s.kind == Plain(Double) { assert v == "3.14"; }
      else if s.kind == Plain(Boolean) { assert v == "true"; }
      else { assert v[0] == '"'; }
    }
    assert !StartsWith(v, "--");
  }

  /** One line of the argument table: `    --name (required|optional): Type`,
      followed by ` | description` unless the description is blank. */
  function ArgumentLine(s: Slot): string {
    var isRequired := if s.required then "required" else "optional";
    var description := if !IsBlank(s.description) then " | " + s.description else "";
    "    --" + s.name + " (" + isRequired + "): " + TypeName(s.kind) + description
  }

  /** The listing entry of a command: its aliases joined by ", ", then ": "
      and its description. */
  function ListingLine(t: CommandType): string
    requires t.attribute.Some?
  {
    Join(t.attribute.value.names, ", ") + ": " + t.attribute.value.description
  }

  /** `DisplayCommandHelp(commandType)`. The usage line, which needs the first
      alias, is written only when the command has arguments. */
  function Describe(t: CommandType): seq<string>
    requires t.attribute.Some? && (|t.arguments| > 0 ==> |t.attribute.value.names| > 0)
  {
    var header := ListingLine(t) + "\n";
    if |t.arguments| == 0 then [header]
    else
      [header, "  Arguments:"]
      + seq(|t.arguments|, i requires 0 <= i < |t.arguments| => ArgumentLine(t.arguments[i]))
      + ["\nExample usage: " + Usage(t)]
  }

  /** The description opens with the command's listing entry and a blank line;
      with arguments, one line per argument follows in property order and the
      usage line closes it; without arguments nothing follows. */
  lemma DescribeLines(t: CommandType)
    requires t.attribute.Some? && (|t.arguments| > 0 ==> |t.attribute.value.names| > 0)
    ensures |Describe(t)| == (if |t.arguments| == 0 then 1 else |t.arguments| + 3)
    ensures Describe(t)[0] == ListingLine(t) + "\n"
    ensures |t.arguments| > 0 ==> Describe(t)[1] == "  Arguments:"
    ensures forall i :: 0 <= i < |t.arguments| ==> Describe(t)[i + 2] == ArgumentLine(t.arguments[i])
    ensures |t.arguments| > 0 ==> Describe(t)[|t.arguments| + 2] == "\nExample usage: " + Usage(t)
  {
  }

  /** The argument line shows the description exactly when it is not
      blank, after the property's name, requirement and type name. */
  lemma ArgumentLineDescription(s: Slot)
    ensures var prefix := "    --" + s.name + " (" + (if s.required then "required" else "optional") + "): " + TypeName(s.kind);
      StartsWith(ArgumentLine(s), prefix)
      && (IsBlank(s.description) <==> |ArgumentLine(s)| == |prefix|)
      && (!IsBlank(s.description) ==> ArgumentLine(s)[|prefix|..] == " | " + s.description)
  {
  }

  /** `Enumerable.Distinct`: the first occurrence of every element, in order. */
  function Distinct(xs: seq<CommandType>): (r: seq<CommandType>)
    ensures forall x :: x in r <==> x in xs
    ensures forall i, j :: 0 <= i < j < |r| ==> r[i] != r[j]
  {
    if xs == [] then []
    else
      var init := Distinct(xs[..|xs| - 1]);
      var last := xs[|xs| - 1];
      assert forall x :: x in xs <==> x in xs[..|xs| - 1] || x == last by {
        assert xs == xs[..|xs| - 1] + [last];
      }
      if last in init then init else init + [last]
  }

  /** The listing entries of the types that carry a `CommandAttribute`, in
      order; the others are skipped. */
  function ListedLines(xs: seq<CommandType>): seq<string> {
    if xs == [] then []
    else (if xs[0].attribute.Some? then [ListingLine(xs[0])] else []) + ListedLines(xs[1..])
  }

  /** The lines written for a blank `CommandName`. */
  function ListCommands(listing: seq<CommandType>): seq<string> {
    ["Available commands:"] + ListedLines(Distinct(listing))
  }

  /** When every type carries its attribute, every type has its entry. */
  lemma {:induction false} ListedLinesAll(xs: seq<CommandType>)
    requires forall i :: 0 <= i < |xs| ==> xs[i].attribute.Some?
    ensures ListedLines(xs) == ListingLines(xs)
  {
    if xs != [] {
      ListedLinesAll(xs[1..]);
      assert ListingLines(xs) == [ListingLine(xs[0])] + ListingLines(xs[1..]);
    }
  }

  /** One listing entry per type, in order. */
  function ListingLines(xs: seq<CommandType>): (r: seq<string>)
    requires forall i :: 0 <= i < |xs| ==> xs[i].attribute.Some?
    ensures |r| == |xs| && forall i :: 0 <= i < |xs| ==> r[i] == ListingLine(xs[i])
  {
    seq(|xs|, i requires 0 <= i < |xs| => ListingLine(xs[i]))
  }

  /** The types of a registry's listing carry their `CommandAttribute`. */
  lemma ListingAttributed(order: seq<string>, types: map<string, CommandType>)
    requires Consistent(order, types)
    ensures forall i :: 0 <= i < |Listing(order, types)| ==>
      Listing(order, types)[i].attribute.Some?
      && |Listing(order, types)[i].attribute.value.names| > 0
  {
    var L := Listing(order, types);
    forall i | 0 <= i < |L|
      ensures L[i].attribute.Some? && |L[i].attribute.value.names| > 0
    {
      assert Owns(types[order[i]], order[i]);
      var n :| n in L[i].attribute.value.names && ToLower(n) == order[i];
    }
  }

  /** The distinct types of a registry's listing are exactly the registered
      types, each once, and all carry their attribute. */
  lemma DistinctListing(order: seq<string>, types: map<string, CommandType>)
    requires Consistent(order, types)
    ensures var D := Distinct(Listing(order, types));
      (forall k :: k in types ==> types[k] in D)
      && (forall i :: 0 <= i < |D| ==> exists k :: k in types && D[i] == types[k])
      && (forall i :: 0 <= i < |D| ==> D[i].attribute.Some?)
  {
    var D := Distinct(Listing(order, types));
    forall k | k in types ensures types[k] in D {
      ListedType(order, types, k);
    }
    forall i | 0 <= i < |D| ensures exists k :: k in types && D[i] == types[k] && D[i].attribute.Some? {
      DistinctEntry(order, types, i);
    }
  }

  /** A registered type is in the listing. */
  lemma ListedType(order: seq<string>, types: map<string, CommandType>, k: string)
    requires Consistent(order, types) && k in types
    ensures types[k] in Listing(order, types)
  {
    var i :| 0 <= i < |order| && order[i] == k;
    assert Listing(order, types)[i] == types[k];
  }

  /** Every distinct entry of the listing is a registered type. */
  lemma DistinctEntry(order: seq<string>, types: map<string, CommandType>, i: nat)
    requires Consistent(order, types)
    requires i < |Distinct(Listing(order, types))|
    ensures exists k :: k in types && Distinct(Listing(order, types))[i] == types[k]
    ensures Distinct(Listing(order, types))[i].attribute.Some?
  {
    ListingAttributed(order, types);
    var L := Listing(order, types);
    var D := Distinct(L);
    assert D[i] in D;
    var j :| 0 <= j < |L| && L[j] == D[i];
    assert order[j] in types;
  }

  /** The listing of a registry lists every registered type exactly once,
      however many aliases it has. */
  lemma RegistryListedOnce(order: seq<string>, types: map<string, CommandType>)
    requires Consistent(order, types)
    ensures var D := Distinct(Listing(order, types));
      (forall k :: k in types ==> types[k] in D)
      && (forall i :: 0 <= i < |D| ==> exists k :: k in types && D[i] == types[k])
      && (forall i, j :: 0 <= i < j < |D| ==> D[i] != D[j])
      && (forall i :: 0 <= i < |D| ==> D[i].attribute.Some?)
      && ListCommands(Listing(order, types))
        == ["Available commands:"] + ListingLines(D)
  {
    DistinctListing(order, types);
    ListedLinesAll(Distinct(Listing(order, types)));
  }

  /** The types whose aliases contain `name` verbatim, in listing order; the
      `!` in the `Single` predicate demands that every type carries its
      attribute. */
  function Matches(xs: seq<CommandType>, name: string): (r: seq<CommandType>)
    requires forall i :: 0 <= i < |xs| ==> xs[i].attribute.Some?
    ensures forall x :: x in r <==> x in xs && name in x.attribute.value.names
    ensures |r| <= |xs|
  {
    if xs == [] then []
    else (if name in xs[0].attribute.value.names then [xs[0]] else []) + Matches(xs[1..], name)
  }

  /** The message for a name that selects no single command. */
  function UnknownCommand(name: string): seq<string> {
    ["Unknown command : '" + name + "'"]
  }

  /** `Evaluate` as written: a null or blank name lists the commands;
      otherwise `Single` over `GetAllCommandTypes()` picks the one entry whose
      aliases contain the lower-cased name, and no entry or several entries
      give the unknown-command message. The source's culture-dependent
      `ToLower()` is taken as the invariant lower-casing. */
  function Evaluate(commandName: Option<string>, listing: seq<CommandType>): seq<string>
    requires commandName.Some? && !IsBlank(commandName.value) ==>
      forall i :: 0 <= i < |listing| ==> listing[i].attribute.Some?
  {
    if commandName.None? || IsBlank(commandName.value) then ListCommands(listing)
    else
      var m := Matches(listing, ToLower(commandName.value));
      if |m| == 1 then
        assert m[0] in m;
        Describe(m[0])
      else UnknownCommand(commandName.value)
  }

  /** A name that selects one entry describes it; any other number of
      matches gives the unknown-command message. */
  lemma EvaluateNamed(name: string, listing: seq<CommandType>)
    requires !IsBlank(name)
    requires forall i :: 0 <= i < |listing| ==> listing[i].attribute.Some?
    ensures var m := Matches(listing, ToLower(name));
      Evaluate(Some(name), listing) == if |m| == 1 then Describe(m[0]) else UnknownCommand(name)
  {
  }

  /** A blank or missing name lists every registered type once. */
  lemma BlankNameLists(commandName: Option<string>, order: seq<string>, types: map<string, CommandType>)
    requires Consistent(order, types)
    requires commandName.None? || IsBlank(commandName.value)
    ensures var D := Distinct(Listing(order, types));
      (forall k :: k in types ==> types[k] in D)
      && (forall i :: 0 <= i < |D| ==> D[i].attribute.Some?)
      && Evaluate(commandName, Listing(order, types))
        == ["Available commands:"] + ListingLines(D)
  {
    RegistryListedOnce(order, types);
  }

  /** A lower-case string differs from any string holding an upper-case
      ASCII letter. */
  lemma LowerDiffers(q: string, n: string, k: nat)
    requires k < |n| && 'A' <= n[k] <= 'Z'
    ensures ToLower(q) != n
  {
    if |ToLower(q)| == |n| {
      assert ToLower(q)[k] == LowerChar(q[k]);
    }
  }

  /** `Where` keeps order and multiplicity: the matches of a concatenation
      are the matches of each part, one after the other. */
  lemma {:induction false} MatchesAppend(a: seq<CommandType>, b: seq<CommandType>, name: string)
    requires forall i :: 0 <= i < |a| ==> a[i].attribute.Some?
    requires forall i :: 0 <= i < |b| ==> b[i].attribute.Some?
    ensures Matches(a + b, name) == Matches(a, name) + Matches(b, name)
    decreases |a|
  {
    if a == [] {
      assert a + b == b;
    } else {
      assert (a + b)[1..] == a[1..] + b;
      MatchesAppend(a[1..], b, name);
    }
  }

  /** An entry occurs among the matches as often as it occurs in the
      listing when its aliases contain the name, and never otherwise. */
  lemma {:induction false} MatchesCount(xs: seq<CommandType>, name: string, x: CommandType)
    requires forall i :: 0 <= i < |xs| ==> xs[i].attribute.Some?
    ensures multiset(Matches(xs, name))[x]
      == if x.attribute.Some? && name in x.attribute.value.names then multiset(xs)[x] else 0
    decreases |xs|
  {
    if xs != [] {
      assert xs == [xs[0]] + xs[1..];
      MatchesCount(xs[1..], name, x);
    }
  }

  /** A type listed `k` times matches `k` times when one of its aliases is
      the name, and not at all otherwise. */
  lemma {:induction false} MatchesRepeated(t: CommandType, k: nat, name: string)
    requires t.attribute.Some?
    ensures Matches(seq(k, _ => t), name) == if name in t.attribute.value.names then seq(k, _ => t) else []
    decreases k
  {
    if k > 0 {
      var s := seq(k, _ => t);
      assert s[1..] == seq(k - 1, _ => t);
      MatchesRepeated(t, k - 1, name);
      if name in t.attribute.value.names {
        assert s == [t] + seq(k - 1, _ => t);
      }
    }
  }

  /** No entry matches a name that none of the listed types declares. */
  lemma NoMatches(xs: seq<CommandType>, name: string)
    requires forall i :: 0 <= i < |xs| ==> xs[i].attribute.Some?
    requires forall i :: 0 <= i < |xs| ==> name !in xs[i].attribute.value.names
    ensures Matches(xs, name) == []
  {
  }

  /** The listing after registering `t` is the old listing with `t` once per
      alias appended, so the matches of any name are the old ones followed
      by `t` once per alias when the name is one of its aliases. */
  lemma MatchesAfterRegistration(order: seq<string>, types: map<string, CommandType>, t: CommandType, name: string)
    requires Consistent(order, types)
    requires Registration(order, types, t).2 == Pass
    ensures var r := Registration(order, types, t);
      Consistent(r.0, r.1)
      && (forall i :: 0 <= i < |Listing(order, types)| ==> Listing(order, types)[i].attribute.Some?)
      && (forall i :: 0 <= i < |Listing(r.0, r.1)| ==> Listing(r.0, r.1)[i].attribute.Some?)
      && Matches(Listing(r.0, r.1), name) == Matches(Listing(order, types), name)
        + (if name in t.attribute.value.names then seq(|t.attribute.value.names|, _ => t) else [])
  {
    RegistrationListing(order, types, t);
    var r := Registration(order, types, t);
    ListingAttributed(order, types);
    ListingAttributed(r.0, r.1);
    var s := seq(|t.attribute.value.names|, _ => t);
    MatchesAppend(Listing(order, types), s, name);
    MatchesRepeated(t, |t.attribute.value.names|, name);
  }

  /** A command with a single alias already in lower case, registered in a
      registry where no type declares that alias verbatim, is described when
      help is asked about any casing of that alias. */
  lemma SingleAliasDescribed(order: seq<string>, types: map<string, CommandType>, t: CommandType, q: string)
    requires Consistent(order, types)
    requires t.attribute.Some? && t.isCommand && |t.attribute.value.names| == 1
    requires !IsBlank(t.attribute.value.names[0]) && ToLower(t.attribute.value.names[0]) == t.attribute.value.names[0]
    requires t.attribute.value.names[0] !in types
    requires forall k :: k in types && types[k].attribute.Some? ==> t.attribute.value.names[0] !in types[k].attribute.value.names
    requires !IsBlank(q) && ToLower(q) == t.attribute.value.names[0]
    ensures var r := Registration(order, types, t);
      r.2 == Pass && Consistent(r.0, r.1)
      && Evaluate(Some(q), Listing(r.0, r.1)) == Describe(t)
  {
    var names := t.attribute.value.names;
    var k := names[0];
    assert names[1..] == [];
    assert AddAliases(names, t, order, types) == AddAliases([], t, order + [k], types[k := t]);
    MatchesAfterRegistration(order, types, t, k);
    var L := Listing(order, types);
    forall i | 0 <= i < |L| ensures k !in L[i].attribute.value.names {
      assert order[i] in types;
    }
    NoMatches(L, k);
  }

  /** Finding, as written: registering a command with two or more aliases
      lists it once per alias in `GetAllCommandTypes`, so `Single` finds
      several matches and help reports the command as unknown under any of
      its aliases, whatever else the registry holds, although the listing
      shows it. */
  lemma MultiAliasUnknown(order: seq<string>, types: map<string, CommandType>, t: CommandType, q: string)
    requires Consistent(order, types)
    requires Registration(order, types, t).2 == Pass
    requires t.attribute.Some? && |t.attribute.value.names| >= 2
    requires !IsBlank(q) && ToLower(q) in t.attribute.value.names
    ensures var r := Registration(order, types, t);
      Consistent(r.0, r.1) && t in Distinct(Listing(r.0, r.1))
      && Evaluate(Some(q), Listing(r.0, r.1)) == UnknownCommand(q)
  {
    MatchesAfterRegistration(order, types, t, ToLower(q));
    RegisteredListed(order, types, t);
    var r := Registration(order, types, t);
    EvaluateNamed(q, Listing(r.0, r.1));
  }

  /** A type just registered is among the distinct entries of the listing. */
  lemma RegisteredListed(order: seq<string>, types: map<string, CommandType>, t: CommandType)
    requires Consistent(order, types)
    requires Registration(order, types, t).2 == Pass
    requires t.attribute.Some? && |t.attribute.value.names| > 0
    ensures var r := Registration(order, types, t);
      Consistent(r.0, r.1) && t in Distinct(Listing(r.0, r.1))
  {
    RegistrationListing(order, types, t);
    var r := Registration(order, types, t);
    assert Listing(r.0, r.1)[|order|] == t;
  }

  /** A type listed twice is shown once. */
  lemma TwiceListedOnce(t: CommandType)
    requires t.attribute.Some?
    ensures ListCommands([t, t]) == ["Available commands:", ListingLine(t)]
  {
    var tt := [t, t];
    assert tt[..1] == [t];
    assert [t][..0] == [];
    assert Distinct([t]) == [t];
    assert Distinct(tt) == [t];
    assert [t][1..] == [];
    assert ListedLines([t]) == [ListingLine(t)];
  }

  /** A listing holding one type twice matches it twice, so `Single` fails. */
  lemma TwiceMatchedTwice(t: CommandType, q: string)
    requires t.attribute.Some? && !IsBlank(q) && ToLower(q) in t.attribute.value.names
    ensures Evaluate(Some(q), [t, t]) == UnknownCommand(q)
  {
    var tt := [t, t];
    assert tt[1..] == [t];
    assert [t][1..] == [];
    assert Matches(tt, ToLower(q)) == [t, t];
  }

  /** Finding, as written: the lower-cased name is compared verbatim with the
      aliases as declared, so registering a command whose every alias holds
      an upper-case letter leaves help's answer about any name unchanged,
      although the registry resolves the command under each alias. */
  lemma MixedCaseAliasUnknown(order: seq<string>, types: map<string, CommandType>, t: CommandType, q: string)
    requires Consistent(order, types)
    requires Registration(order, types, t).2 == Pass
    requires t.attribute.Some?
    requires forall i :: 0 <= i < |t.attribute.value.names| ==>
      exists k :: 0 <= k < |t.attribute.value.names[i]| && 'A' <= t.attribute.value.names[i][k] <= 'Z'
    requires !IsBlank(q)
    ensures var r := Registration(order, types, t);
      Consistent(r.0, r.1)
      && (forall n :: n in t.attribute.value.names ==> Lookup(r.1, n) == Ok(t))
      && (forall i :: 0 <= i < |Listing(order, types)| ==> Listing(order, types)[i].attribute.Some?)
      && Evaluate(Some(q), Listing(r.0, r.1)) == Evaluate(Some(q), Listing(order, types))
      && (order == [] ==> Evaluate(Some(q), Listing(r.0, r.1)) == UnknownCommand(q))
  {
    var names := t.attribute.value.names;
    var r := Registration(order, types, t);
    forall n | n in names ensures Lookup(r.1, n) == Ok(t) {
      assert EqualsIgnoreCase(n, n);
      LookupAfterRegistration(order, types, t, n, n);
    }
    forall i | 0 <= i < |names| ensures ToLower(q) != names[i] {
      var k :| 0 <= k < |names[i]| && 'A' <= names[i][k] <= 'Z';
      LowerDiffers(q, names[i], k);
    }
    MatchesAfterRegistration(order, types, t, ToLower(q));
    EvaluateNamed(q, Listing(order, types));
    EvaluateNamed(q, Listing(r.0, r.1));
  }

  /** `Evaluate` with the target resolved as `CommandRegistry.GetCommandType`
      resolves it: through the lower-cased alias key. */
  function EvaluateByAlias(commandName: Option<string>, order: seq<string>, types: map<string, CommandType>): seq<string>
    requires Consistent(order, types)
  {
    if commandName.None? || IsBlank(commandName.value) then ListCommands(Listing(order, types))
    else
      match Lookup(types, commandName.value)
      case Ok(t) =>
        assert Owns(types[ToLower(commandName.value)], ToLower(commandName.value));
        assert exists n :: n in t.attribute.value.names;
        Describe(t)
      case Err(_) => UnknownCommand(commandName.value)
  }

  /** With the target resolved through the alias key, help describes a
      registered command under every casing of every one of its aliases. */
  lemma EveryAliasDescribed(order: seq<string>, types: map<string, CommandType>, t: CommandType, n: string, q: string)
    requires Consistent(order, types)
    requires Registration(order, types, t).2 == Pass
    requires t.attribute.Some? && n in t.attribute.value.names && EqualsIgnoreCase(q, n) && !IsBlank(q)
    ensures var r := Registration(order, types, t);
      Consistent(r.0, r.1) && EvaluateByAlias(Some(q), r.0, r.1) == Describe(t)
  {
    AddAliasesGrows(t.attribute.value.names, t, order, types);
    LookupAfterRegistration(order, types, t, n, q);
  }

  /** With the target resolved through the alias key, a name that is no
      registered alias in any casing gives the unknown-command message. */
  lemma UnregisteredUnknown(order: seq<string>, types: map<string, CommandType>, q: string)
    requires Consistent(order, types)
    requires !IsBlank(q) && forall k :: k in types ==> !EqualsIgnoreCase(q, k)
    ensures EvaluateByAlias(Some(q), order, types) == UnknownCommand(q)
  {
    if ToLower(q) in types {
      ToLowerIdempotent(q);
      assert EqualsIgnoreCase(q, ToLower(q));
    }
  }

  /** `HelpCommand` itself: aliases `help` and `h`, and an optional string
      property `CommandName` bound by `--c`. */
  function HelpCommandType(): CommandType {
    CommandType(
      "ConsoleFramework.Commands.HelpCommand",
      Some(CommandAttribute(["help", "h"], "Displays help information for available commands")),
      true,
      [Slot("CommandName", "c", "Name of command to display help about", false, StringType)])
  }

  /** The help command has two aliases, so in a registry holding only it the
      listing shows it once, yet asking for help about it under either alias
      prints the unknown-command message. */
  lemma HelpAboutHelpUnknown(q: string)
    requires q == "help" || q == "h"
    ensures var r := Registration([], map[], HelpCommandType());
      r.2 == Pass && Listing(r.0, r.1) == [HelpCommandType(), HelpCommandType()]
    ensures Evaluate(None, [HelpCommandType(), HelpCommandType()]) == ["Available commands:", ListingLine(HelpCommandType())]
    ensures Evaluate(Some(q), [HelpCommandType(), HelpCommandType()]) == UnknownCommand(q)
  {
    var t := HelpCommandType();
    var names := t.attribute.value.names;
    assert names == ["help", "h"];
    assert !IsWhiteSpace(names[0][0]) && !IsWhiteSpace(names[1][0]);
    assert |ToLower(names[0])| != |ToLower(names[1])|;
    assert !IsWhiteSpace(q[0]);
    assert ToLower(q) == q by {
      assert forall i :: 0 <= i < |q| ==> 'a' <= q[i] <= 'z';
    }
    TwoAliasesListedTwice(t);
    TwiceListedOnce(t);
    TwiceMatchedTwice(t, q);
  }
}
