/** `CommandFactory`: resolves a command line or an argument array to a
    command instance. The private `CreateCommand(Type, string[], string)` is a
    strictly positional binder: the i-th argument property takes `args[i]`,
    and a named token is only accepted when it names that very property. */
module Factory {
  import opened Text
  import opened Metadata
  import opened Tokenizer
  import opened ArgumentSyntax
  import opened Coercion
  import opened Registry

  /** `argIndex < args.Length ? args[argIndex] : null`. */
  function ArgAt(args: seq<string>, i: nat): (a: Option<string>)
    ensures a.Some? <==> i < |args|
    ensures a.Some? ==> a.value == args[i]
  {
    if i < |args| then Some(args[i]) else None
  }

  /** `GetArgumentName` on a possibly null argument. */
  function NameOf(arg: Option<string>): Option<string> {
    if arg.None? then None else ArgumentName(arg.value)
  }

  /** `GetArgumentValue` on a possibly null argument. */
  function ValueOf(arg: Option<string>): Option<string> {
    if arg.None? then None else Some(ArgumentValue(arg.value))
  }

  /** One iteration of the binder's loop: what the `i`-th argument property
      receives, or the exception the iteration throws. */
  function BindSlot(slot: Slot, i: nat, args: seq<string>, command: string): (r: Result<Value>)
    requires Supported(slot.kind)
    ensures r.Ok? ==> HasType(r.value, slot.kind)
  {
    if i >= |args| && slot.required then Err(MissingArgument(slot.name, command))
    else
      var arg := ArgAt(args, i);
      var name := NameOf(arg);
      if name.Some? && name.value != slot.name then Err(UnexpectedArgument(name.value, command, slot.property))
      else
        var value := ValueOf(arg);
        match ConvertArgumentValue(value, slot.kind)
        case Converted(v) => Ok(v)
        case FormatFailure => Err(InvalidFormat(if value.Some? then value.value else "", slot.name))
        case OtherFailure(f) => Err(ConversionFailed(f))
  }

  /** What every iteration of the binder's loop would compute, each on its
      own. */
  function Bindings(slots: seq<Slot>, args: seq<string>, command: string): (rs: seq<Result<Value>>)
    requires SupportedSlots(slots)
    ensures |rs| == |slots|
    ensures forall i :: 0 <= i < |slots| ==> rs[i] == BindSlot(slots[i], i, args, command)
  {
    seq(|slots|, i requires 0 <= i < |slots| => BindSlot(slots[i], i, args, command))
  }

  /** The properties written for `slots` when the iterations compute `rs`:
      each result in turn is written to its property, and the first
      exception ends the loop. */
  function Writes(slots: seq<Slot>, rs: seq<Result<Value>>): Result<map<string, Value>>
    requires |rs| == |slots|
  {
    if slots == [] then Ok(map[])
    else
      var n := |slots| - 1;
      match Writes(slots[..n], rs[..n])
      case Err(e) => Err(e)
      case Ok(m) =>
        match rs[n]
        case Err(e) => Err(e)
        case Ok(v) => Ok(m[slots[n].property := v])
  }

  /** The properties the binder writes for the argument properties `slots`,
      or the first exception. */
  function Bound(slots: seq<Slot>, args: seq<string>, command: string): Result<map<string, Value>>
    requires SupportedSlots(slots)
  {
    Writes(slots, Bindings(slots, args, command))
  }

  /** The iterations for a prefix of the properties are a prefix of the
      iterations. */
  lemma BindingsPrefix(slots: seq<Slot>, args: seq<string>, command: string, k: nat)
    requires SupportedSlots(slots) && k <= |slots|
    ensures SupportedSlots(slots[..k])
    ensures Bindings(slots[..k], args, command) == Bindings(slots, args, command)[..k]
  {
    assert forall i :: 0 <= i < k ==> slots[..k][i] == slots[i];
  }

  /** The private `CreateCommand(Type, string[], string)`: a fresh instance,
      then one property write per argument property in declaration order. */
  method CreateCommandOfType(t: CommandType, args: seq<string>, commandName: string) returns (r: Result<CommandInstance>)
    requires SupportedSlots(t.arguments)
    ensures r.Ok? ==> fresh(r.value)
    ensures r.Ok? <==> Bound(t.arguments, args, commandName).Ok?
    ensures r.Ok? ==> r.value.properties == Bound(t.arguments, args, commandName).value
    ensures r.Err? ==> r.error == Bound(t.arguments, args, commandName).error
  {
    var slots := t.arguments;
    var command := new CommandInstance();
    ghost var rs := Bindings(slots, args, commandName);
    var argIndex := 0;
    while argIndex < |slots|
      invariant 0 <= argIndex <= |slots|
      invariant Writes(slots[..argIndex], rs[..argIndex]) == Ok(command.properties)
    {
      var slot := slots[argIndex];
      var bound := BindArgument(slot, argIndex, args, commandName);
      if bound.Err? {
        WritesStopsAt(slots, rs, argIndex);
        return Err(bound.error);
      }
      WritesStep(slots, rs, argIndex, command.properties);
      command.properties := command.properties[slot.property := bound.value];
      argIndex := argIndex + 1;
    }
    assert slots[..argIndex] == slots && rs[..argIndex] == rs;
    return Ok(command);
  }

  /** The body of the binder's loop for the property at `argIndex`: the
      missing-argument check, the name check and the conversion. */
  method BindArgument(slot: Slot, argIndex: nat, args: seq<string>, commandName: string) returns (r: Result<Value>)
    requires Supported(slot.kind)
    ensures r == BindSlot(slot, argIndex, args, commandName)
  {
    if argIndex >= |args| && slot.required {
      return Err(MissingArgument(slot.name, commandName));
    }
    var arg := if argIndex < |args| then Some(args[argIndex]) else None;
    var argName := NameOf(arg);
    if argName.Some? && argName.value != slot.name {
      return Err(UnexpectedArgument(argName.value, commandName, slot.property));
    }
    var value := ValueOf(arg);
    var converted := ConvertArgumentValue(value, slot.kind);
    match converted {
      case FormatFailure =>
        return Err(InvalidFormat(if value.Some? then value.value else "", slot.name));
      case OtherFailure(f) =>
        return Err(ConversionFailed(f));
      case Converted(v) =>
        return Ok(v);
    }
  }

  /** Once the writes for a prefix fail, the whole loop fails with the same
      exception. */
  lemma {:induction false} WritesErrPersists(slots: seq<Slot>, rs: seq<Result<Value>>, k: nat)
    requires |rs| == |slots| && k <= |slots|
    requires Writes(slots[..k], rs[..k]).Err?
    ensures Writes(slots, rs) == Writes(slots[..k], rs[..k])
    decreases |slots|
  {
    if k < |slots| {
      var n := |slots| - 1;
      assert slots[..n][..k] == slots[..k];
      assert rs[..n][..k] == rs[..k];
      WritesErrPersists(slots[..n], rs[..n], k);
    } else {
      assert slots[..k] == slots;
      assert rs[..k] == rs;
    }
  }

  /** A successful iteration after successful ones writes its property. */
  lemma WritesStep(slots: seq<Slot>, rs: seq<Result<Value>>, j: nat, m: map<string, Value>)
    requires |rs| == |slots| && j < |slots|
    requires Writes(slots[..j], rs[..j]) == Ok(m) && rs[j].Ok?
    ensures Writes(slots[..j + 1], rs[..j + 1]) == Ok(m[slots[j].property := rs[j].value])
  {
    assert slots[..j + 1][..j] == slots[..j];
    assert rs[..j + 1][..j] == rs[..j];
    assert rs[..j + 1][j] == rs[j];
  }

  /** A failing iteration after successful ones ends the loop with its
      exception. */
  lemma WritesStopsAt(slots: seq<Slot>, rs: seq<Result<Value>>, j: nat)
    requires |rs| == |slots| && j < |slots|
    requires Writes(slots[..j], rs[..j]).Ok? && rs[j].Err?
    ensures Writes(slots, rs) == Err(rs[j].error)
  {
    assert slots[..j + 1][..j] == slots[..j];
    assert rs[..j + 1][..j] == rs[..j];
    assert rs[..j + 1][j] == rs[j];
    WritesErrPersists(slots, rs, j + 1);
  }

  /** The loop completes exactly when every iteration succeeds. */
  lemma {:induction false} WritesOk(slots: seq<Slot>, rs: seq<Result<Value>>)
    requires |rs| == |slots|
    ensures Writes(slots, rs).Ok? <==> forall i :: 0 <= i < |rs| ==> rs[i].Ok?
  {
    if slots != [] {
      var n := |slots| - 1;
      WritesOk(slots[..n], rs[..n]);
      assert forall i :: 0 <= i < n ==> rs[..n][i] == rs[i];
    }
  }

  /** A completed loop writes exactly the argument properties. */
  lemma {:induction false} WritesKeys(slots: seq<Slot>, rs: seq<Result<Value>>)
    requires |rs| == |slots|
    requires Writes(slots, rs).Ok?
    ensures Writes(slots, rs).value.Keys == Properties(slots)
  {
    if slots != [] {
      var n := |slots| - 1;
      WritesKeys(slots[..n], rs[..n]);
      PropertiesSnoc(slots);
    }
  }

  /** A completed loop leaves the `i`-th property with the `i`-th result
      when the properties are distinct. */
  lemma {:induction false} WritesValueAt(slots: seq<Slot>, rs: seq<Result<Value>>, i: nat)
    requires |rs| == |slots| && DistinctProperties(slots)
    requires Writes(slots, rs).Ok? && i < |slots|
    ensures rs[i].Ok?
    ensures slots[i].property in Writes(slots, rs).value
    ensures Writes(slots, rs).value[slots[i].property] == rs[i].value
    decreases |slots|
  {
    var n := |slots| - 1;
    var init := slots[..n];
    if i < n {
      assert init[i] == slots[i] && rs[..n][i] == rs[i];
      assert DistinctProperties(init) by {
        forall a, b | 0 <= a < b < |init| ensures init[a].property != init[b].property {
          assert init[a] == slots[a] && init[b] == slots[b];
        }
      }
      WritesValueAt(init, rs[..n], i);
      assert slots[i].property != slots[n].property;
    }
  }

  /** A failing loop fails with the exception of its first failing
      iteration. */
  lemma {:induction false} WritesFirstError(slots: seq<Slot>, rs: seq<Result<Value>>)
    requires |rs| == |slots|
    requires Writes(slots, rs).Err?
    ensures exists i :: (0 <= i < |rs| && rs[i] == Err(Writes(slots, rs).error)
      && (forall j :: 0 <= j < i ==> rs[j].Ok?))
  {
    var n := |slots| - 1;
    var init := rs[..n];
    assert forall i :: 0 <= i < n ==> init[i] == rs[i];
    if Writes(slots[..n], init).Err? {
      WritesFirstError(slots[..n], init);
      var i :| 0 <= i < n && init[i] == Err(Writes(slots[..n], init).error)
        && forall j :: 0 <= j < i ==> init[j].Ok?;
      assert rs[i] == Err(Writes(slots, rs).error);
    } else {
      WritesOk(slots[..n], init);
      assert rs[n] == Err(Writes(slots, rs).error);
    }
  }

  /** Once a prefix of the properties fails, the whole binding fails with
      the same exception. */
  lemma BoundErrPersists(slots: seq<Slot>, args: seq<string>, command: string, k: nat)
    requires SupportedSlots(slots) && k <= |slots|
    requires Bound(slots[..k], args, command).Err?
    ensures Bound(slots, args, command) == Bound(slots[..k], args, command)
  {
    BindingsPrefix(slots, args, command, k);
    WritesErrPersists(slots, Bindings(slots, args, command), k);
  }

  /** A failing iteration after successful ones ends the binding with its
      exception. */
  lemma BoundStopsAt(slots: seq<Slot>, args: seq<string>, command: string, j: nat)
    requires SupportedSlots(slots) && j < |slots|
    requires Bound(slots[..j], args, command).Ok?
    requires BindSlot(slots[j], j, args, command).Err?
    ensures Bound(slots, args, command) == Err(BindSlot(slots[j], j, args, command).error)
  {
    BindingsPrefix(slots, args, command, j);
    WritesStopsAt(slots, Bindings(slots, args, command), j);
  }

  /** The binding succeeds exactly when every iteration does. */
  lemma BoundOk(slots: seq<Slot>, args: seq<string>, command: string)
    requires SupportedSlots(slots)
    ensures Bound(slots, args, command).Ok? <==> forall i :: 0 <= i < |slots| ==> BindSlot(slots[i], i, args, command).Ok?
  {
    WritesOk(slots, Bindings(slots, args, command));
  }

  /** A successful binding writes exactly the argument properties. */
  lemma BoundKeys(slots: seq<Slot>, args: seq<string>, command: string)
    requires SupportedSlots(slots)
    requires Bound(slots, args, command).Ok?
    ensures Bound(slots, args, command).value.Keys == Properties(slots)
  {
    WritesKeys(slots, Bindings(slots, args, command));
  }

  /** A successful binding writes the `i`-th argument property with the
      value its own iteration computes. */
  lemma BoundValueAt(slots: seq<Slot>, args: seq<string>, command: string, i: nat)
    requires SupportedSlots(slots) && DistinctProperties(slots)
    requires Bound(slots, args, command).Ok? && i < |slots|
    ensures BindSlot(slots[i], i, args, command).Ok?
    ensures slots[i].property in Bound(slots, args, command).value
    ensures Bound(slots, args, command).value[slots[i].property] == BindSlot(slots[i], i, args, command).value
  {
    WritesValueAt(slots, Bindings(slots, args, command), i);
  }

  /** A successful binding writes every argument property with the value its
      own iteration computes. */
  lemma BoundValues(slots: seq<Slot>, args: seq<string>, command: string)
    requires SupportedSlots(slots) && DistinctProperties(slots)
    requires Bound(slots, args, command).Ok?
    ensures forall i :: 0 <= i < |slots| ==>
      BindSlot(slots[i], i, args, command).Ok?
      && slots[i].property in Bound(slots, args, command).value
      && Bound(slots, args, command).value[slots[i].property] == BindSlot(slots[i], i, args, command).value
  {
    forall i | 0 <= i < |slots|
      ensures BindSlot(slots[i], i, args, command).Ok?
      ensures slots[i].property in Bound(slots, args, command).value
      ensures Bound(slots, args, command).value[slots[i].property] == BindSlot(slots[i], i, args, command).value
    {
      BoundValueAt(slots, args, command, i);
    }
  }

  /** A failing binding fails with the exception of its first failing
      iteration. */
  lemma BoundFirstError(slots: seq<Slot>, args: seq<string>, command: string)
    requires SupportedSlots(slots)
    requires Bound(slots, args, command).Err?
    ensures exists i :: (0 <= i < |slots|
      && BindSlot(slots[i], i, args, command) == Err(Bound(slots, args, command).error)
      && (forall j :: 0 <= j < i ==> BindSlot(slots[j], j, args, command).Ok?))
  {
    var rs := Bindings(slots, args, command);
    WritesFirstError(slots, rs);
    var i :| 0 <= i < |rs| && rs[i] == Err(Writes(slots, rs).error) && forall j :: 0 <= j < i ==> rs[j].Ok?;
    assert BindSlot(slots[i], i, args, command) == Err(Bound(slots, args, command).error);
  }

  /** Arguments past the last argument property are never looked at. */
  lemma SurplusIgnored(slots: seq<Slot>, args: seq<string>, extra: seq<string>, command: string)
    requires SupportedSlots(slots) && |slots| <= |args|
    ensures Bound(slots, args + extra, command) == Bound(slots, args, command)
  {
    forall i | 0 <= i < |slots|
      ensures BindSlot(slots[i], i, args + extra, command) == BindSlot(slots[i], i, args, command)
    {
      assert (args + extra)[i] == args[i];
      assert ArgAt(args + extra, i) == ArgAt(args, i);
    }
    assert Bindings(slots, args + extra, command) == Bindings(slots, args, command);
  }

  /** An optional property past the last argument gets its type's default:
      `null` for a string or a `Nullable<T>`, the zero value otherwise. */
  lemma OptionalPastEnd(slots: seq<Slot>, args: seq<string>, command: string, i: nat)
    requires SupportedSlots(slots) && DistinctProperties(slots)
    requires Bound(slots, args, command).Ok?
    requires |args| <= i < |slots| && !slots[i].required
    ensures slots[i].property in Bound(slots, args, command).value
    ensures Bound(slots, args, command).value[slots[i].property] == DefaultValue(slots[i].kind)
  {
    BoundValues(slots, args, command);
  }

  /** A required property past the last argument fails with "Missing
      required argument" once the properties before it are bound. */
  lemma MissingRequired(slots: seq<Slot>, args: seq<string>, command: string, j: nat)
    requires SupportedSlots(slots) && |args| <= j < |slots| && slots[j].required
    requires Bound(slots[..j], args, command).Ok?
    ensures Bound(slots, args, command) == Err(MissingArgument(slots[j].name, command))
  {
    BoundStopsAt(slots, args, command, j);
  }

  /** A named token in position `j` must name the `j`-th property, required
      or optional; any other name, the empty one from `--` included, fails
      with "Unexpected argument" naming the expected property. */
  lemma WrongNameRejected(slots: seq<Slot>, args: seq<string>, command: string, j: nat, n: string)
    requires SupportedSlots(slots) && j < |slots| && j < |args|
    requires Bound(slots[..j], args, command).Ok?
    requires ArgumentName(args[j]) == Some(n) && n != slots[j].name
    ensures Bound(slots, args, command) == Err(UnexpectedArgument(n, command, slots[j].property))
  {
    BoundStopsAt(slots, args, command, j);
  }

  /** A value that does not parse as the property's type is reported with
      the value (after `GetArgumentValue`) and the argument's name. */
  lemma FormatErrorReported(slots: seq<Slot>, args: seq<string>, command: string, j: nat)
    requires SupportedSlots(slots) && j < |slots| && j < |args|
    requires Bound(slots[..j], args, command).Ok?
    requires ArgumentName(args[j]).None? || ArgumentName(args[j]) == Some(slots[j].name)
    requires ConvertArgumentValue(Some(ArgumentValue(args[j])), slots[j].kind) == FormatFailure
    ensures Bound(slots, args, command) == Err(InvalidFormat(ArgumentValue(args[j]), slots[j].name))
  {
    BoundStopsAt(slots, args, command, j);
  }

  /** A bare `--name` in the position of a `bool` property named `name`
      sets it to `true`. */
  lemma FlagSetsBoolean(slot: Slot, j: nat, args: seq<string>, command: string)
    requires slot.kind == Plain(Boolean) && '=' !in slot.name
    requires j < |args| && args[j] == "--" + slot.name
    ensures BindSlot(slot, j, args, command) == Ok(Bool(true))
  {
    FlagToken(slot.name);
    ParseBooleanCasing("true", true);
  }

  /** An optional property past the last argument takes its type's default
      value. */
  lemma PastEndDefault(slot: Slot, i: nat, args: seq<string>, command: string)
    requires Supported(slot.kind) && !slot.required && |args| <= i
    ensures BindSlot(slot, i, args, command) == Ok(DefaultValue(slot.kind))
  {
  }

  /** A positional token in the position of a string property sets it to the
      token without its edge quotes. */
  lemma PositionalStringBinds(slot: Slot, j: nat, args: seq<string>, command: string)
    requires slot.kind == StringType
    requires j < |args| && !StartsWith(args[j], "--")
    ensures BindSlot(slot, j, args, command) == Ok(Str(Trim(args[j], '"')))
  {
  }

  /** `--name=<k>` in the position of an `int` property named `name` sets it
      to `k`. */
  lemma NamedIntegerBinds(slot: Slot, j: nat, args: seq<string>, command: string, k: int)
    requires slot.kind == Plain(Int32) && '=' !in slot.name
    requires Int32Min <= k <= Int32Max
    requires j < |args| && args[j] == "--" + slot.name + "=" + IntToString(k)
    ensures BindSlot(slot, j, args, command) == Ok(Int(k))
  {
    var v := IntToString(k);
    var e: string := "";
    IntToStringPlain(k);
    assert "--" + slot.name + "=" + v + e == args[j];
    AssignmentToken(slot.name, v, e);
    TrimUnchanged(v, '"');
    ParseInt32RoundTrip(k);
    IntegerConverted(v);
  }

  /** `CreateCommand(string[])`: `args[0]` names the command, looked up in
      the registry, and the rest are its arguments. */
  function Resolve(types: map<string, CommandType>, args: seq<string>): (r: Result<map<string, Value>>)
    requires RegisteredSupported(types)
    ensures args == [] ==> r == Err(NoCommandName)
    ensures args != [] && ToLower(args[0]) !in types ==> r == Err(UnknownCommand(args[0]))
    ensures args != [] && ToLower(args[0]) in types ==>
      r == Bound(types[ToLower(args[0])].arguments, args[1..], args[0])
  {
    if args == [] then Err(NoCommandName)
    else
      match Lookup(types, args[0])
      case Err(e) => Err(e)
      case Ok(t) => Bound(t.arguments, args[1..], args[0])
  }

  /** Every registered command's argument types are modelled. */
  predicate RegisteredSupported(types: map<string, CommandType>) {
    forall k :: k in types ==> SupportedSlots(types[k].arguments)
  }

  class CommandFactory {
    const registry: CommandRegistry

    constructor (registry: CommandRegistry)
      ensures this.registry == registry
    {
      this.registry := registry;
    }

    /** `CreateCommand(string[] args)`. */
    method CreateCommandFromArgs(args: seq<string>) returns (r: Result<CommandInstance>)
      requires RegisteredSupported(registry.commandTypes)
      ensures r.Ok? ==> fresh(r.value)
      ensures r.Ok? <==> Resolve(registry.commandTypes, args).Ok?
      ensures r.Ok? ==> r.value.properties == Resolve(registry.commandTypes, args).value
      ensures r.Err? ==> r.error == Resolve(registry.commandTypes, args).error
    {
      if |args| == 0 {
        return Err(NoCommandName);
      }
      var commandName := args[0];
      var commandType := registry.GetCommandType(commandName);
      if commandType.Err? {
        return Err(commandType.error);
      }
      r := CreateCommandOfType(commandType.value, args[1..], commandName);
    }

    /** `CreateCommand(string input)`: the first token names the command and
        the remaining tokens are its arguments. */
    method CreateCommandFromInput(input: string) returns (r: Result<CommandInstance>)
      requires RegisteredSupported(registry.commandTypes)
      ensures r.Ok? ==> fresh(r.value)
      ensures r.Ok? <==> Resolve(registry.commandTypes, Tokens(input)).Ok?
      ensures r.Ok? ==> r.value.properties == Resolve(registry.commandTypes, Tokens(input)).value
      ensures r.Err? ==> r.error == Resolve(registry.commandTypes, Tokens(input)).error
    {
      var tokens := GetTokens(input);
      var commandName := tokens[0];
      var args := tokens[1..];
      var commandType := registry.GetCommandType(commandName);
      if commandType.Err? {
        return Err(commandType.error);
      }
      r := CreateCommandOfType(commandType.value, args, commandName);
    }
  }

  /** A line whose first word has no spaces or quotes resolves like the
      argument array made of that word and the tokens of the rest. */
  lemma ResolveLine(types: map<string, CommandType>, name: string, rest: string)
    requires RegisteredSupported(types)
    requires ' ' !in name && '"' !in name
    ensures Resolve(types, Tokens(name + " " + rest)) == Resolve(types, [name] + Tokens(rest))
  {
    HeadToken(name, rest);
  }

  /** The binding of a two-property command, one iteration at a time. */
  lemma BoundTwo(slots: seq<Slot>, args: seq<string>, command: string)
    requires SupportedSlots(slots) && |slots| == 2
    ensures BindSlot(slots[0], 0, args, command).Err? ==>
      Bound(slots, args, command) == Err(BindSlot(slots[0], 0, args, command).error)
    ensures BindSlot(slots[0], 0, args, command).Ok? && BindSlot(slots[1], 1, args, command).Err? ==>
      Bound(slots, args, command) == Err(BindSlot(slots[1], 1, args, command).error)
    ensures BindSlot(slots[0], 0, args, command).Ok? && BindSlot(slots[1], 1, args, command).Ok? ==>
      Bound(slots, args, command) == Ok(map[slots[0].property := BindSlot(slots[0], 0, args, command).value]
                                          [slots[1].property := BindSlot(slots[1], 1, args, command).value])
  {
    var rs := Bindings(slots, args, command);
    WritesTwo(slots, rs);
  }

  /** The writes of a two-property loop, one iteration at a time. */
  lemma WritesTwo(slots: seq<Slot>, rs: seq<Result<Value>>)
    requires |slots| == 2 && |rs| == 2
    ensures rs[0].Err? ==> Writes(slots, rs) == Err(rs[0].error)
    ensures rs[0].Ok? && rs[1].Err? ==> Writes(slots, rs) == Err(rs[1].error)
    ensures rs[0].Ok? && rs[1].Ok? ==>
      Writes(slots, rs) == Ok(map[slots[0].property := rs[0].value][slots[1].property := rs[1].value])
  {
    var first := slots[..1];
    var r1 := rs[..1];
    assert first[..0] == [] && r1[..0] == [];
    assert first[0] == slots[0] && r1[0] == rs[0];
    assert Writes(first[..0], r1[..0]) == Ok(map[]);
  }

  /** A command with a string and then an `int` property binds a positional
      token and a named integer, in that order. */
  lemma StringThenNamedInteger(slots: seq<Slot>, m: string, k: int, command: string)
    requires |slots| == 2 && slots[0].kind == StringType && slots[1].kind == Plain(Int32)
    requires '=' !in slots[1].name && !StartsWith(m, "--")
    requires Int32Min <= k <= Int32Max
    ensures Bound(slots, [m, "--" + slots[1].name + "=" + IntToString(k)], command)
      == Ok(map[slots[0].property := Str(Trim(m, '"'))][slots[1].property := Int(k)])
  {
    var args := [m, "--" + slots[1].name + "=" + IntToString(k)];
    assert SupportedSlots(slots) by {
      assert forall i :: 0 <= i < 2 ==> slots[i].kind == StringType || slots[i].kind == Plain(Int32);
    }
    NamedIntegerBinds(slots[1], 1, args, command, k);
    PositionalStringBinds(slots[0], 0, args, command);
    BoundTwo(slots, args, command);
  }

  /** The sample command binds a positional message and a named integer,
      in that order. */
  lemma ExampleCommandBinds(m: string, k: int, command: string)
    requires !StartsWith(m, "--")
    requires Int32Min <= k <= Int32Max
    ensures Bound(ExampleCommandType().arguments, [m, "--optional=" + IntToString(k)], command)
      == Ok(map["Message" := Str(Trim(m, '"')), "Optional" := Int(k)])
  {
    var slots := ExampleCommandType().arguments;
    assert "--" + slots[1].name + "=" + IntToString(k) == "--optional=" + IntToString(k);
    StringThenNamedInteger(slots, m, k, command);
  }

  /** With only the message, the optional integer takes its default 0. */
  lemma ExampleCommandDefault(m: string, command: string)
    requires !StartsWith(m, "--")
    ensures Bound(ExampleCommandType().arguments, [m], command)
      == Ok(map["Message" := Str(Trim(m, '"')), "Optional" := Int(0)])
  {
    var slots := ExampleCommandType().arguments;
    var args := [m];
    PositionalStringBinds(slots[0], 0, args, command);
    PastEndDefault(slots[1], 1, args, command);
    BoundTwo(slots, args, command);
  }

  /** With no arguments the required message is missing. */
  lemma ExampleCommandMissing(command: string)
    ensures Bound(ExampleCommandType().arguments, [], command) == Err(MissingArgument("message", command))
  {
    var slots := ExampleCommandType().arguments;
    assert BindSlot(slots[0], 0, [], command) == Err(MissingArgument("message", command));
    BoundTwo(slots, [], command);
  }
}
