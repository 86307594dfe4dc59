/** `CommandArgumentInjector`: the second binder. It caches the tokens (named
    ones in a dictionary, the rest in a FIFO queue), then fills the required
    properties and after them the optional ones, each group in declaration
    order; a property prefers its named value and otherwise takes the next
    positional one. */
module Injector {
  import opened Text
  import opened Metadata
  import opened ArgumentSyntax
  import opened Coercion

  /** The required argument properties, in declaration order. */
  function RequiredSlots(slots: seq<Slot>): (r: seq<Slot>)
    ensures forall i :: 0 <= i < |r| ==> r[i].required && r[i] in slots
  {
    if slots == [] then []
    else (if slots[0].required then [slots[0]] else []) + RequiredSlots(slots[1..])
  }

  /** The optional argument properties, in declaration order. */
  function OptionalSlots(slots: seq<Slot>): (r: seq<Slot>)
    ensures forall i :: 0 <= i < |r| ==> !r[i].required && r[i] in slots
  {
    if slots == [] then []
    else (if slots[0].required then [] else [slots[0]]) + OptionalSlots(slots[1..])
  }

  /** The two groups partition the argument properties. */
  lemma {:induction false} PartitionSlots(slots: seq<Slot>)
    ensures multiset(RequiredSlots(slots)) + multiset(OptionalSlots(slots)) == multiset(slots)
  {
    if slots != [] {
      PartitionSlots(slots[1..]);
      assert slots == [slots[0]] + slots[1..];
    }
  }

  /** `Where` keeps declaration order: the required slots of a concatenation
      are those of its first part followed by those of its second part. With
      the one-slot case this fixes `RequiredSlots` completely. */
  lemma {:induction false} RequiredSlotsAppend(a: seq<Slot>, b: seq<Slot>)
    ensures RequiredSlots(a + b) == RequiredSlots(a) + RequiredSlots(b)
  {
    if a != [] {
      assert (a + b)[1..] == a[1..] + b;
      RequiredSlotsAppend(a[1..], b);
    } else {
      assert a + b == b;
    }
  }

  /** The same for the optional slots. */
  lemma {:induction false} OptionalSlotsAppend(a: seq<Slot>, b: seq<Slot>)
    ensures OptionalSlots(a + b) == OptionalSlots(a) + OptionalSlots(b)
  {
    if a != [] {
      assert (a + b)[1..] == a[1..] + b;
      OptionalSlotsAppend(a[1..], b);
    } else {
      assert a + b == b;
    }
  }

  /** One slot lands in exactly one of the two groups. */
  lemma SlotsOne(s: Slot)
    ensures RequiredSlots([s]) == (if s.required then [s] else [])
    ensures OptionalSlots([s]) == (if s.required then [] else [s])
  {
    assert [s][1..] == [];
  }

  /** The queue and the dictionary. */
  datatype Cache = Cache(unnamed: seq<string>, named: map<string, string>)

  /** The key a token is cached under: its name when it has a non-empty one. */
  function NamedKey(arg: string): (k: Option<string>)
    ensures k.Some? <==> ArgumentName(arg).Some? && ArgumentName(arg).value != ""
    ensures k.Some? ==> k.value == ArgumentName(arg).value
  {
    var name := ArgumentName(arg);
    if name.Some? && name.value != "" then name else None
  }

  /** `CacheArguments` from the cache `c` onwards: a token with a non-empty
      name is added to the dictionary (`Dictionary.Add` throws on a name
      already there), any other token has its value enqueued. */
  function CacheFrom(args: seq<string>, c: Cache): (Cache, Outcome)
    decreases |args|
  {
    if args == [] then (c, Pass)
    else
      var key := NamedKey(args[0]);
      if key.None? then CacheFrom(args[1..], Cache(c.unnamed + [ArgumentValue(args[0])], c.named))
      else if key.value in c.named then (c, Fail(DuplicateKey(key.value)))
      else CacheFrom(args[1..], Cache(c.unnamed, c.named[key.value := ArgumentValue(args[0])]))
  }

  /** `GetArgument`: the named value, which stays in the dictionary, or else
      the next positional value, which leaves the queue, or else "". */
  function Take(c: Cache, name: string): (r: (string, Cache))
    ensures name in c.named ==> r == (c.named[name], c)
    ensures name !in c.named && |c.unnamed| > 0 ==> r == (c.unnamed[0], Cache(c.unnamed[1..], c.named))
    ensures name !in c.named && |c.unnamed| == 0 ==> r == ("", c)
  {
    if name in c.named then (c.named[name], c)
    else if |c.unnamed| > 0 then (c.unnamed[0], Cache(c.unnamed[1..], c.named))
    else ("", c)
  }

  /** `SetRequiredArguments` (`required`) or `SetOptionalArguments` over
      `slots`: an empty argument is missing for a required property and
      skipped for an optional one; any other argument goes through
      `GetArgumentValue` once more and is converted. The first failure stops
      the loop; properties written before it keep their values. */
  function SetSlots(slots: seq<Slot>, required: bool, command: string, c: Cache, props: map<string, Value>)
    : (Outcome, Cache, map<string, Value>)
    requires SupportedSlots(slots)
    decreases |slots|
  {
    if slots == [] then (Pass, c, props)
    else
      var slot := slots[0];
      var (argument, c') := Take(c, slot.name);
      if argument == "" then
        if required then (Fail(MissingArgument(slot.name, command)), c', props)
        else SetSlots(slots[1..], required, command, c', props)
      else
        var value := ArgumentValue(argument);
        match ConvertArgumentValue(Some(value), slot.kind)
        case Converted(v) => SetSlots(slots[1..], required, command, c', props[slot.property := v])
        case FormatFailure => (Fail(InvalidFormat(value, slot.name)), c', props)
        case OtherFailure(f) => (Fail(ConversionFailed(f)), c', props)
  }

  /** `Fill`: cache the tokens afresh, then the required properties, then
      the optional ones. */
  function FillSpec(required: seq<Slot>, optional: seq<Slot>, command: string, args: seq<string>, props: map<string, Value>)
    : (Outcome, Cache, map<string, Value>)
    requires SupportedSlots(required) && SupportedSlots(optional)
  {
    var (c, cached) := CacheFrom(args, Cache([], map[]));
    if cached.Fail? then (cached, c, props)
    else
      var (o, c', p) := SetSlots(required, true, command, c, props);
      if o.Fail? then (o, c', p)
      else SetSlots(optional, false, command, c', p)
  }

  class CommandArgumentInjector {
    /** `_commandName`: the first alias, or `null` (rendered "") without a
        `CommandAttribute`. */
    const commandName: string
    const requiredSlots: seq<Slot>
    const optionalSlots: seq<Slot>
    var unnamedArguments: seq<string>
    var namedArguments: map<string, string>

    constructor (t: CommandType)
      requires t.attribute.Some? ==> |t.attribute.value.names| > 0
      requires SupportedSlots(t.arguments)
      ensures commandName == (if t.attribute.Some? then t.attribute.value.names[0] else "")
      ensures requiredSlots == RequiredSlots(t.arguments) && optionalSlots == OptionalSlots(t.arguments)
      ensures SupportedSlots(requiredSlots) && SupportedSlots(optionalSlots)
      ensures unnamedArguments == [] && namedArguments == map[]
    {
      commandName := if t.attribute.Some? then t.attribute.value.names[0] else "";
      requiredSlots := RequiredSlots(t.arguments);
      optionalSlots := OptionalSlots(t.arguments);
      unnamedArguments := [];
      namedArguments := map[];
    }

    /** The queue and the dictionary as one value. */
    function Cached(): Cache
      reads this
    {
      Cache(unnamedArguments, namedArguments)
    }

    /** `Fill(command, args)`. Its outcome and the properties it writes depend
        on `args` and the old properties only, never on an earlier call. */
    method Fill(command: CommandInstance, args: seq<string>) returns (outcome: Outcome)
      requires SupportedSlots(requiredSlots) && SupportedSlots(optionalSlots)
      modifies this, command
      ensures (outcome, Cached(), command.properties)
        == FillSpec(requiredSlots, optionalSlots, commandName, args, old(command.properties))
    {
      outcome := CacheArguments(args);
      if outcome.Fail? {
        return;
      }
      outcome := SetRequiredArguments(command);
      if outcome.Fail? {
        return;
      }
      outcome := SetOptionalArguments(command);
    }

    /** `CacheArguments(args)`: both collections are cleared first. */
    method CacheArguments(args: seq<string>) returns (outcome: Outcome)
      modifies this
      ensures (Cached(), outcome) == CacheFrom(args, Cache([], map[]))
    {
      namedArguments := map[];
      unnamedArguments := [];
      var i := 0;
      while i < |args|
        invariant 0 <= i <= |args|
        invariant CacheFrom(args[i..], Cached()) == CacheFrom(args, Cache([], map[]))
      {
        var arg := args[i];
        assert args[i..][1..] == args[i + 1..];
        var name := ArgumentName(arg);
        if name.None? || name.value == "" {
          unnamedArguments := unnamedArguments + [ArgumentValue(arg)];
        } else {
          if name.value in namedArguments {
            return Fail(DuplicateKey(name.value));
          }
          namedArguments := namedArguments[name.value := ArgumentValue(arg)];
        }
        i := i + 1;
      }
      return Pass;
    }

    /** `GetArgument(attributeName)`. */
    method GetArgument(attributeName: string) returns (argument: string)
      modifies this
      ensures (argument, Cached()) == Take(old(Cached()), attributeName)
    {
      argument := "";
      if attributeName in namedArguments {
        argument := namedArguments[attributeName];
      } else if |unnamedArguments| > 0 {
        argument := unnamedArguments[0];
        unnamedArguments := unnamedArguments[1..];
      }
    }

    /** `SetRequiredArguments(command)`. */
    method SetRequiredArguments(command: CommandInstance) returns (outcome: Outcome)
      requires SupportedSlots(requiredSlots)
      modifies this, command
      ensures (outcome, Cached(), command.properties)
        == SetSlots(requiredSlots, true, commandName, old(Cached()), old(command.properties))
    {
      outcome := SetArguments(command, requiredSlots, true);
    }

    /** `SetOptionalArguments(command)`. */
    method SetOptionalArguments(command: CommandInstance) returns (outcome: Outcome)
      requires SupportedSlots(optionalSlots)
      modifies this, command
      ensures (outcome, Cached(), command.properties)
        == SetSlots(optionalSlots, false, commandName, old(Cached()), old(command.properties))
    {
      outcome := SetArguments(command, optionalSlots, false);
    }

    /** The `for` loop the two methods above share; they differ only in what
        an empty argument means. */
    method SetArguments(command: CommandInstance, slots: seq<Slot>, required: bool) returns (outcome: Outcome)
      requires SupportedSlots(slots)
      modifies this, command
      ensures (outcome, Cached(), command.properties)
        == SetSlots(slots, required, commandName, old(Cached()), old(command.properties))
    {
      var index := 0;
      while index < |slots|
        invariant 0 <= index <= |slots|
        invariant SetSlots(slots[index..], required, commandName, Cached(), command.properties)
          == SetSlots(slots, required, commandName, old(Cached()), old(command.properties))
      {
        var slot := slots[index];
        assert slots[index..][1..] == slots[index + 1..];
        var argument := GetArgument(slot.name);
        if argument == "" {
          if required {
            return Fail(MissingArgument(slot.name, commandName));
          }
        } else {
          var value := ArgumentValue(argument);
          var converted := ConvertArgumentValue(Some(value), slot.kind);
          match converted {
            case FormatFailure =>
              return Fail(InvalidFormat(value, slot.name));
            case OtherFailure(f) =>
              return Fail(ConversionFailed(f));
            case Converted(v) =>
              command.properties := command.properties[slot.property := v];
          }
        }
        index := index + 1;
      }
      return Pass;
    }
  }

  /** The values of the tokens without a non-empty name, in input order: what
      the queue holds after caching. */
  function Positional(args: seq<string>): seq<string> {
    if args == [] then []
    else (if NamedKey(args[0]).None? then [ArgumentValue(args[0])] else []) + Positional(args[1..])
  }

  /** No two tokens share a non-empty name. */
  predicate DistinctNames(args: seq<string>) {
    forall i, j :: 0 <= i < j < |args| && NamedKey(args[i]).Some? ==> NamedKey(args[i]) != NamedKey(args[j])
  }

  /** No token's non-empty name is already a key of `named`. */
  predicate NewNames(args: seq<string>, named: map<string, string>) {
    forall i :: 0 <= i < |args| && NamedKey(args[i]).Some? ==> NamedKey(args[i]).value !in named
  }

  /** Caching succeeds exactly when the non-empty names are pairwise
      different and new; otherwise it fails at `Dictionary.Add`. */
  lemma {:induction false} CachePassIff(args: seq<string>, c: Cache)
    ensures CacheFrom(args, c).1 == Pass <==> DistinctNames(args) && NewNames(args, c.named)
    ensures CacheFrom(args, c).1.Fail? ==> CacheFrom(args, c).1.error.DuplicateKey?
    decreases |args|
  {
    if args != [] {
      var rest := args[1..];
      var key := NamedKey(args[0]);
      var v := ArgumentValue(args[0]);
      if key.None? {
        CachePassIff(rest, Cache(c.unnamed + [v], c.named));
        NamesConsPositional(args, c.named);
      } else if key.value !in c.named {
        CachePassIff(rest, Cache(c.unnamed, c.named[key.value := v]));
        NamesConsNamed(args, c.named, v);
      }
    }
  }

  /** A first token without a name has no say in whether the names are
      distinct and new. */
  lemma NamesConsPositional(args: seq<string>, named: map<string, string>)
    requires args != [] && NamedKey(args[0]).None?
    ensures DistinctNames(args) <==> DistinctNames(args[1..])
    ensures NewNames(args, named) <==> NewNames(args[1..], named)
  {
    var rest := args[1..];
    assert forall i :: 0 <= i < |rest| ==> rest[i] == args[i + 1];
    if DistinctNames(rest) {
      forall i, j | 0 <= i < j < |args| && NamedKey(args[i]).Some?
        ensures NamedKey(args[i]) != NamedKey(args[j])
      {
        assert NamedKey(rest[i - 1]) != NamedKey(rest[j - 1]);
      }
    }
  }

  /** A first token whose name is new keeps the names distinct and new
      exactly when the rest's names are distinct and new once it is added. */
  lemma NamesConsNamed(args: seq<string>, named: map<string, string>, v: string)
    requires args != [] && NamedKey(args[0]).Some? && NamedKey(args[0]).value !in named
    ensures DistinctNames(args) && NewNames(args, named)
      <==> DistinctNames(args[1..]) && NewNames(args[1..], named[NamedKey(args[0]).value := v])
  {
    var rest := args[1..];
    var named' := named[NamedKey(args[0]).value := v];
    assert forall i :: 0 <= i < |rest| ==> rest[i] == args[i + 1];
    if DistinctNames(rest) && NewNames(rest, named') {
      forall i, j | 0 <= i < j < |args| && NamedKey(args[i]).Some?
        ensures NamedKey(args[i]) != NamedKey(args[j])
      {
        if i > 0 { assert NamedKey(rest[i - 1]) != NamedKey(rest[j - 1]); }
        else { assert NamedKey(rest[j - 1]).Some? ==> NamedKey(rest[j - 1]).value !in named'; }
      }
    }
    if DistinctNames(args) && NewNames(args, named) {
      forall i | 0 <= i < |rest| && NamedKey(rest[i]).Some?
        ensures NamedKey(rest[i]).value !in named'
      {
        assert NamedKey(args[0]) != NamedKey(args[i + 1]);
      }
    }
  }

  /** After successful caching the queue holds the positional values in
      input order, after whatever it held before. */
  lemma {:induction false} CacheQueue(args: seq<string>, c: Cache)
    requires CacheFrom(args, c).1 == Pass
    ensures CacheFrom(args, c).0.unnamed == c.unnamed + Positional(args)
    decreases |args|
  {
    if args != [] {
      var key := NamedKey(args[0]);
      var v := ArgumentValue(args[0]);
      if key.None? {
        CacheQueue(args[1..], Cache(c.unnamed + [v], c.named));
        assert Positional(args) == [v] + Positional(args[1..]);
        assert c.unnamed + [v] + Positional(args[1..]) == c.unnamed + ([v] + Positional(args[1..]));
      } else {
        CacheQueue(args[1..], Cache(c.unnamed, c.named[key.value := v]));
        assert Positional(args) == Positional(args[1..]);
      }
    }
  }

  /** Every token with a non-empty name has its value in `named` under that
      name. */
  predicate NamedIn(args: seq<string>, named: map<string, string>) {
    forall i :: 0 <= i < |args| && NamedKey(args[i]).Some? ==>
      NamedKey(args[i]).value in named && named[NamedKey(args[i]).value] == ArgumentValue(args[i])
  }

  /** After successful caching every token with a non-empty name has its value
      in the dictionary under that name. */
  lemma {:induction false} CacheNamed(args: seq<string>, c: Cache)
    requires CacheFrom(args, c).1 == Pass
    ensures NamedIn(args, CacheFrom(args, c).0.named)
    decreases |args|
  {
    if args != [] {
      var rest := args[1..];
      var key := NamedKey(args[0]);
      var v := ArgumentValue(args[0]);
      var c' := if key.None? then Cache(c.unnamed + [v], c.named) else Cache(c.unnamed, c.named[key.value := v]);
      assert CacheFrom(args, c) == CacheFrom(rest, c');
      CacheNamed(rest, c');
      CacheKeeps(rest, c');
      NamedInCons(args, CacheFrom(rest, c').0.named);
    }
  }

  /** `NamedIn` for a non-empty sequence: its first token and the rest. */
  lemma NamedInCons(args: seq<string>, named: map<string, string>)
    requires args != [] && NamedIn(args[1..], named)
    requires NamedKey(args[0]).Some? ==>
      NamedKey(args[0]).value in named && named[NamedKey(args[0]).value] == ArgumentValue(args[0])
    ensures NamedIn(args, named)
  {
    forall i | 0 < i < |args| ensures args[i] == args[1..][i - 1] { }
  }

  /** Successful caching only adds to the dictionary. */
  lemma {:induction false} CacheKeeps(args: seq<string>, c: Cache)
    requires CacheFrom(args, c).1 == Pass
    ensures forall k :: k in c.named ==> k in CacheFrom(args, c).0.named && CacheFrom(args, c).0.named[k] == c.named[k]
    decreases |args|
  {
    if args != [] {
      var key := NamedKey(args[0]);
      var v := ArgumentValue(args[0]);
      if key.None? {
        CacheKeeps(args[1..], Cache(c.unnamed + [v], c.named));
      } else {
        CacheKeeps(args[1..], Cache(c.unnamed, c.named[key.value := v]));
      }
    }
  }

  /** Successful caching adds nothing but the tokens' names. */
  lemma {:induction false} CacheOnlyNames(args: seq<string>, c: Cache)
    requires CacheFrom(args, c).1 == Pass
    ensures forall k :: k in CacheFrom(args, c).0.named ==>
      k in c.named || exists i :: 0 <= i < |args| && NamedKey(args[i]) == Some(k)
    decreases |args|
  {
    if args != [] {
      var rest := args[1..];
      var key := NamedKey(args[0]);
      var v := ArgumentValue(args[0]);
      var c' := if key.None? then Cache(c.unnamed + [v], c.named) else Cache(c.unnamed, c.named[key.value := v]);
      assert CacheFrom(args, c) == CacheFrom(rest, c');
      CacheOnlyNames(rest, c');
      forall k | k in CacheFrom(args, c).0.named && k !in c.named
        ensures exists i :: 0 <= i < |args| && NamedKey(args[i]) == Some(k)
      {
        if key == Some(k) {
          assert NamedKey(args[0]) == Some(k);
        } else {
          var i :| 0 <= i < |rest| && NamedKey(rest[i]) == Some(k);
          assert NamedKey(args[i + 1]) == Some(k);
        }
      }
    }
  }

  /** Tokens without a non-empty name are all queued, in order. */
  lemma {:induction false} CacheAllPositional(args: seq<string>, c: Cache)
    requires forall i :: 0 <= i < |args| ==> NamedKey(args[i]).None?
    ensures CacheFrom(args, c) == (Cache(c.unnamed + Positional(args), c.named), Pass)
    decreases |args|
  {
    if args == [] {
      assert c.unnamed + [] == c.unnamed;
    } else {
      var v := ArgumentValue(args[0]);
      var rest := args[1..];
      assert NamedKey(args[0]).None?;
      assert forall i :: 0 <= i < |rest| ==> rest[i] == args[i + 1];
      var c' := Cache(c.unnamed + [v], c.named);
      assert CacheFrom(args, c) == CacheFrom(rest, c');
      CacheAllPositional(rest, c');
      var p := Positional(rest);
      assert Positional(args) == [v] + p;
      assert c.unnamed + [v] + p == c.unnamed + ([v] + p);
    }
  }

  /** A single token is cached under its name when it has one, and queued
      otherwise. */
  lemma CacheOne(arg: string)
    ensures NamedKey(arg).None? ==>
      CacheFrom([arg], Cache([], map[])) == (Cache([ArgumentValue(arg)], map[]), Pass)
    ensures NamedKey(arg).Some? ==>
      CacheFrom([arg], Cache([], map[])) == (Cache([], map[NamedKey(arg).value := ArgumentValue(arg)]), Pass)
  {
    var args := [arg];
    var v := ArgumentValue(arg);
    assert args[1..] == [];
    if NamedKey(arg).None? {
      assert [] + [v] == [v];
      assert CacheFrom(args, Cache([], map[])) == CacheFrom([], Cache([v], map[]));
    } else {
      assert CacheFrom(args, Cache([], map[])) == CacheFrom([], Cache([], map[NamedKey(arg).value := v]));
    }
  }

  /** `--` and `--=x` have an empty name, so they are queued as the
      positional values "true" and `x` without its edge quotes. */
  lemma EmptyNamesQueued(x: string)
    requires '=' !in x
    ensures Positional(["--", "--=" + x]) == ["true", Trim(x, '"')]
  {
    EmptyNames(x);
    var args := ["--", "--=" + x];
    assert args[1..] == ["--=" + x];
    assert args[1..][1..] == [];
    assert Positional(args[1..]) == [Trim(x, '"')];
  }

  /** Two tokens with the same non-empty name make `Fill` fail at
      `Dictionary.Add` before any property is written. */
  lemma DuplicateFailsFirst(required: seq<Slot>, optional: seq<Slot>, command: string, args: seq<string>, props: map<string, Value>)
    requires SupportedSlots(required) && SupportedSlots(optional)
    requires !DistinctNames(args)
    ensures FillSpec(required, optional, command, args, props).0.Fail?
    ensures FillSpec(required, optional, command, args, props).0.error.DuplicateKey?
    ensures FillSpec(required, optional, command, args, props).2 == props
  {
    CachePassIff(args, Cache([], map[]));
  }

  /** A property outside `slots` keeps its value whatever the loop does. */
  lemma {:induction false} WritesElsewhere(slots: seq<Slot>, required: bool, command: string, c: Cache, props: map<string, Value>, p: string)
    requires SupportedSlots(slots) && p in props && p !in Properties(slots)
    ensures p in SetSlots(slots, required, command, c, props).2
    ensures SetSlots(slots, required, command, c, props).2[p] == props[p]
    decreases |slots|
  {
    if slots != [] {
      PropertiesCons(slots);
      var (argument, c') := Take(c, slots[0].name);
      if argument == "" {
        if !required { WritesElsewhere(slots[1..], required, command, c', props, p); }
      } else {
        var conv := ConvertArgumentValue(Some(ArgumentValue(argument)), slots[0].kind);
        if conv.Converted? {
          WritesElsewhere(slots[1..], required, command, c', props[slots[0].property := conv.value], p);
        }
      }
    }
  }

  /** No rollback: once the first property is written, it keeps its new value
      even if a later property fails. */
  lemma NoRollback(slots: seq<Slot>, required: bool, command: string, c: Cache, props: map<string, Value>)
    requires SupportedSlots(slots) && DistinctProperties(slots) && |slots| > 0
    requires Take(c, slots[0].name).0 != ""
    requires ConvertArgumentValue(Some(ArgumentValue(Take(c, slots[0].name).0)), slots[0].kind).Converted?
    ensures slots[0].property in SetSlots(slots, required, command, c, props).2
    ensures SetSlots(slots, required, command, c, props).2[slots[0].property]
      == ConvertArgumentValue(Some(ArgumentValue(Take(c, slots[0].name).0)), slots[0].kind).value
  {
    var (argument, c') := Take(c, slots[0].name);
    var v := ConvertArgumentValue(Some(ArgumentValue(argument)), slots[0].kind).value;
    assert slots[0].property !in Properties(slots[1..]);
    WritesElsewhere(slots[1..], required, command, c', props[slots[0].property := v], slots[0].property);
  }

  /** With an empty dictionary, string properties take the non-empty queued
      values first in, first out, one each, and leave the rest queued. */
  lemma {:induction false} QueueInOrder(slots: seq<Slot>, required: bool, command: string, q: seq<string>, props: map<string, Value>)
    requires SupportedSlots(slots)
    requires forall i :: 0 <= i < |slots| ==> slots[i].kind == StringType
    requires |slots| <= |q| && forall i :: 0 <= i < |q| ==> q[i] != ""
    ensures SetSlots(slots, required, command, Cache(q, map[]), props).0 == Pass
    ensures SetSlots(slots, required, command, Cache(q, map[]), props).1 == Cache(q[|slots|..], map[])
    ensures SetSlots(slots, required, command, Cache(q, map[]), props).2 == Assigned(slots, q, props)
    decreases |slots|
  {
    if slots != [] {
      var rest := slots[1..];
      var c := Cache(q, map[]);
      assert Take(c, slots[0].name) == (q[0], Cache(q[1..], map[]));
      assert ConvertArgumentValue(Some(ArgumentValue(q[0])), StringType) == Converted(Str(ArgumentValue(q[0])));
      var props' := props[slots[0].property := Str(ArgumentValue(q[0]))];
      assert SetSlots(slots, required, command, c, props) == SetSlots(rest, required, command, Cache(q[1..], map[]), props');
      assert forall i :: 0 <= i < |rest| ==> rest[i] == slots[i + 1];
      assert forall i :: 0 <= i < |q[1..]| ==> q[1..][i] == q[i + 1];
      QueueInOrder(rest, required, command, q[1..], props');
      assert q[1..][|rest|..] == q[|slots|..];
      assert Assigned(slots, q, props) == Assigned(rest, q[1..], props');
    }
  }

  /** The properties after string slots take `q[0]`, `q[1]`, ... in turn
      (each through `GetArgumentValue`). */
  function Assigned(slots: seq<Slot>, q: seq<string>, props: map<string, Value>): map<string, Value>
    requires |slots| <= |q|
    decreases |slots|
  {
    if slots == [] then props
    else Assigned(slots[1..], q[1..], props[slots[0].property := Str(ArgumentValue(q[0]))])
  }

  /** `Assigned` writes the `i`-th property with the `i`-th value. */
  lemma {:induction false} AssignedAt(slots: seq<Slot>, q: seq<string>, props: map<string, Value>, i: nat)
    requires |slots| <= |q| && DistinctProperties(slots) && i < |slots|
    ensures slots[i].property in Assigned(slots, q, props)
    ensures Assigned(slots, q, props)[slots[i].property] == Str(ArgumentValue(q[i]))
    decreases |slots|
  {
    var rest := slots[1..];
    var props' := props[slots[0].property := Str(ArgumentValue(q[0]))];
    if i == 0 {
      assert slots[0].property !in Properties(rest);
      AssignedElsewhere(rest, q[1..], props', slots[0].property);
    } else {
      assert rest[i - 1] == slots[i];
      AssignedAt(rest, q[1..], props', i - 1);
    }
  }

  lemma {:induction false} AssignedElsewhere(slots: seq<Slot>, q: seq<string>, props: map<string, Value>, p: string)
    requires |slots| <= |q| && p in props && p !in Properties(slots)
    ensures p in Assigned(slots, q, props) && Assigned(slots, q, props)[p] == props[p]
    decreases |slots|
  {
    if slots != [] {
      PropertiesCons(slots);
      AssignedElsewhere(slots[1..], q[1..], props[slots[0].property := Str(ArgumentValue(q[0]))], p);
    }
  }

  /** With only positional tokens, `Fill` gives the required properties the
      first values in order and the optional properties the values after
      them. */
  lemma FillPositional(required: seq<Slot>, optional: seq<Slot>, command: string, args: seq<string>, props: map<string, Value>)
    requires SupportedSlots(required) && SupportedSlots(optional)
    requires forall i :: 0 <= i < |required| ==> required[i].kind == StringType
    requires forall i :: 0 <= i < |optional| ==> optional[i].kind == StringType
    requires forall i :: 0 <= i < |args| ==> NamedKey(args[i]).None?
    requires forall i :: 0 <= i < |Positional(args)| ==> Positional(args)[i] != ""
    requires |required| + |optional| <= |Positional(args)|
    ensures FillSpec(required, optional, command, args, props).0 == Pass
    ensures FillSpec(required, optional, command, args, props).2
      == Assigned(optional, Positional(args)[|required|..], Assigned(required, Positional(args), props))
  {
    var empty := Cache([], map[]);
    var q := Positional(args);
    CacheAllPositional(args, empty);
    assert [] + q == q;
    var c := CacheFrom(args, empty).0;
    assert c == Cache(q, map[]);
    QueueInOrder(required, true, command, q, props);
    var q' := q[|required|..];
    QueueInOrder(optional, false, command, q', Assigned(required, q, props));
  }

  /** `--name=` is cached under `name` with the empty value. */
  lemma EmptyAssignmentCached(n: string)
    requires n != "" && '=' !in n
    ensures CacheFrom(["--" + n + "="], Cache([], map[])) == (Cache([], map[n := ""]), Pass)
  {
    var arg := "--" + n + "=";
    EmptyAssignmentToken(n);
    CacheOne(arg);
  }

  /** `--name=` has the name `name` and the empty value. */
  lemma EmptyAssignmentToken(n: string)
    requires n != "" && '=' !in n
    ensures NamedKey("--" + n + "=") == Some(n) && ArgumentValue("--" + n + "=") == ""
  {
    var arg := "--" + n + "=";
    AssignedNothing(n, arg);
  }

  /** The same, for the token named by a variable. */
  lemma AssignedNothing(n: string, arg: string)
    requires '=' !in n && arg == "--" + n + "="
    ensures ArgumentName(arg) == Some(n) && ArgumentValue(arg) == ""
  {
    var e: string := "";
    assert arg == "--" + n + "=" + e + e;
    AssignmentToken(n, e, e);
    TrimUnchanged(e, '"');
  }

  /** `""` is queued as the empty value. */
  lemma EmptyQuotesCached()
    ensures CacheFrom(["\"\""], Cache([], map[])) == (Cache([""], map[]), Pass)
  {
    var arg := "\"\"";
    assert arg[0] == '"';
    assert !StartsWith(arg, "--");
    assert Trim(arg, '"') == "" by {
      TrimSurrounded("", '"');
      assert ['"'] + "" + ['"'] == arg;
    }
    assert NamedKey(arg).None?;
    CacheOne(arg);
  }

  /** A required property whose argument is empty fails as missing: `--name=`
      gives an empty named value, and `""` an empty positional one. */
  lemma EmptyRequiredMissing(slot: Slot, command: string, n: string, props: map<string, Value>)
    requires Supported(slot.kind) && slot.name == n && n != "" && '=' !in n
    ensures FillSpec([slot], [], command, ["--" + n + "="], props).0 == Fail(MissingArgument(n, command))
    ensures FillSpec([slot], [], command, ["\"\""], props).0 == Fail(MissingArgument(n, command))
  {
    EmptyAssignmentCached(n);
    var c := Cache([], map[n := ""]);
    assert Take(c, n) == ("", c);
    assert SetSlots([slot], true, command, c, props).0 == Fail(MissingArgument(n, command));
    EmptyQuotesCached();
    var u: seq<string> := [""];
    assert u[1..] == [];
    var c' := Cache(u, map[]);
    assert Take(c', n) == ("", Cache([], map[]));
    assert SetSlots([slot], true, command, c', props).0 == Fail(MissingArgument(n, command));
  }

  /** An optional property whose argument is empty is skipped: its old value
      stays. */
  lemma EmptyOptionalSkipped(slot: Slot, command: string, n: string, props: map<string, Value>)
    requires Supported(slot.kind) && slot.name == n && n != "" && '=' !in n
    ensures FillSpec([], [slot], command, ["--" + n + "="], props).0 == Pass
    ensures FillSpec([], [slot], command, ["--" + n + "="], props).2 == props
  {
    EmptyAssignmentCached(n);
    var c := Cache([], map[n := ""]);
    assert SetSlots([], true, command, c, props) == (Pass, c, props);
    assert Take(c, n) == ("", c);
    var one := [slot];
    assert one[1..] == [];
    assert SetSlots(one, false, command, c, props) == SetSlots([], false, command, c, props);
  }

  /** A quoted token holding `--name=w` is queued without its quotes. */
  lemma QuotedAssignmentCached(n: string, w: string)
    requires '=' !in n && '=' !in w && '"' !in n
    requires w != [] && w[0] != '"' && w[|w| - 1] != '"'
    ensures CacheFrom(["\"--" + n + "=" + w + "\""], Cache([], map[])) == (Cache(["--" + n + "=" + w], map[]), Pass)
  {
    var token := "\"--" + n + "=" + w + "\"";
    Reparsed(n, w);
    assert token[0] == '"';
    assert !StartsWith(token, "--");
    assert NamedKey(token).None?;
    CacheOne(token);
  }

  /** A quoted positional token holding `--name=w` is unquoted when it is
      queued and read as `--name=w` when the property takes it, so a string
      property receives `w`. */
  lemma QuotedAssignmentReparsed(slot: Slot, command: string, n: string, w: string, props: map<string, Value>)
    requires slot.kind == StringType && n != slot.name
    requires '=' !in n && '=' !in w && '"' !in n
    requires w != [] && w[0] != '"' && w[|w| - 1] != '"'
    ensures FillSpec([slot], [], command, ["\"--" + n + "=" + w + "\""], props)
      == (Pass, Cache([], map[]), props[slot.property := Str(w)])
  {
    var inner := "--" + n + "=" + w;
    QuotedAssignmentCached(n, w);
    Reparsed(n, w);
    var u: seq<string> := [inner];
    assert u[1..] == [];
    var c := Cache(u, map[]);
    assert inner != "" by { assert inner[0] == '-'; }
    assert Take(c, slot.name) == (inner, Cache([], map[]));
    assert ArgumentValue(inner) == w;
    var one := [slot];
    assert one[1..] == [];
    assert SetSlots(one, true, command, c, props) == SetSlots([], true, command, Cache([], map[]), props[slot.property := Str(w)]);
  }
}
