/** `CommandRegistry`: a dictionary from lower-cased alias to command type.
    Registration validates the type and adds its aliases one at a time, so an
    alias that fails leaves the ones before it registered. Lookup lower-cases
    the name it is given; listing yields one entry per alias. */
module Registry {
  import opened Text
  import opened Metadata

  /** `TryGetValue(name.ToLowerInvariant())` on the dictionary. */
  function Lookup(types: map<string, CommandType>, name: string): (r: Result<CommandType>)
    ensures r.Ok? <==> ToLower(name) in types
    ensures r.Ok? ==> r.value == types[ToLower(name)]
    ensures r.Err? ==> r.error == UnknownCommand(name)
  {
    if ToLower(name) in types then Ok(types[ToLower(name)]) else Err(UnknownCommand(name))
  }

  /** The keys a list of aliases is stored under. */
  function Keys(names: seq<string>): set<string> {
    set n | n in names :: ToLower(n)
  }

  /** A dictionary entry `k -> t` is one that registering `t` can add. */
  predicate Owns(t: CommandType, k: string) {
    t.attribute.Some? && t.isCommand && k in Keys(t.attribute.value.names)
  }

  /** The registry state: the dictionary and the order its keys were added
      in, which is the order a `Dictionary` without removals enumerates. */
  predicate Consistent(order: seq<string>, types: map<string, CommandType>) {
    (forall i :: 0 <= i < |order| ==> order[i] in types)
    && (forall k :: k in types ==> k in order)
    && (forall i, j :: 0 <= i < j < |order| ==> order[i] != order[j])
    && (forall k :: k in types ==> Owns(types[k], k))
  }

  /** The `foreach` over `commandAttribute.Names`: each alias must be
      non-blank and its lower-cased form not yet a key; `Dictionary.Add`
      throws on any key already present. Returns the new order, the new
      dictionary and the outcome; aliases added before a failure stay. */
  function AddAliases(names: seq<string>, t: CommandType, order: seq<string>, types: map<string, CommandType>)
    : (r: (seq<string>, map<string, CommandType>, Outcome))
    decreases |names|
  {
    if names == [] then (order, types, Pass)
    else if IsBlank(names[0]) then (order, types, Fail(BlankAlias(t.fullName)))
    else
      var key := ToLower(names[0]);
      if key in types then (order, types, Fail(DuplicateKey(key)))
      else AddAliases(names[1..], t, order + [key], types[key := t])
  }

  /** `RegisterCommandType(Type)`. */
  function Registration(order: seq<string>, types: map<string, CommandType>, t: CommandType)
    : (seq<string>, map<string, CommandType>, Outcome)
  {
    if t.attribute.None? then (order, types, Fail(MissingCommandAttribute(t.fullName)))
    else if !t.isCommand then (order, types, Fail(NotACommand(t.fullName)))
    else AddAliases(t.attribute.value.names, t, order, types)
  }

  /** `GetAllCommandTypes`: the value of every entry, in enumeration order. */
  function Listing(order: seq<string>, types: map<string, CommandType>): (r: seq<CommandType>)
    requires forall i :: 0 <= i < |order| ==> order[i] in types
    ensures |r| == |order|
    ensures forall i :: 0 <= i < |order| ==> r[i] == types[order[i]]
  {
    seq(|order|, i requires 0 <= i < |order| => types[order[i]])
  }

  class CommandRegistry {
    var aliases: seq<string>
    var commandTypes: map<string, CommandType>

    ghost predicate Valid()
      reads this
    {
      Consistent(aliases, commandTypes)
    }

    constructor ()
      ensures Valid() && aliases == [] && commandTypes == map[]
    {
      aliases := [];
      commandTypes := map[];
    }

    /** The validation checks, then one `Dictionary.Add` per alias. A failed
        registration reports its error and keeps what it added before. */
    method RegisterCommandType(t: CommandType) returns (outcome: Outcome)
      requires Valid()
      modifies this
      ensures Valid()
      ensures (aliases, commandTypes, outcome) == Registration(old(aliases), old(commandTypes), t)
    {
      if t.attribute.None? {
        return Fail(MissingCommandAttribute(t.fullName));
      }
      if !t.isCommand {
        return Fail(NotACommand(t.fullName));
      }
      var names := t.attribute.value.names;
      var i := 0;
      while i < |names|
        invariant 0 <= i <= |names|
        invariant Valid()
        invariant AddAliases(names[i..], t, aliases, commandTypes) == AddAliases(names, t, old(aliases), old(commandTypes))
      {
        var name := names[i];
        if IsBlank(name) {
          return Fail(BlankAlias(t.fullName));
        }
        var key := ToLower(name);
        if key in commandTypes {
          return Fail(DuplicateKey(key));
        }
        assert names[i..][1..] == names[i + 1..];
        assert key in Keys(names);
        aliases := aliases + [key];
        commandTypes := commandTypes[key := t];
        i := i + 1;
      }
      return Pass;
    }

    /** `GetCommandType`: the type registered under the lower-cased name, or
        "Unknown command". Reading the registry changes nothing. */
    function GetCommandType(name: string): (r: Result<CommandType>)
      reads this
      ensures r.Ok? <==> ToLower(name) in commandTypes
      ensures r.Ok? ==> r.value == commandTypes[ToLower(name)] && Lookup(commandTypes, name) == r
      ensures r.Err? ==> r.error == UnknownCommand(name)
    {
      Lookup(commandTypes, name)
    }

    /** `GetAllCommandTypes`. */
    function GetAllCommandTypes(): (r: seq<CommandType>)
      requires Valid()
      reads this
      ensures |r| == |aliases| && r == Listing(aliases, commandTypes)
    {
      Listing(aliases, commandTypes)
    }
  }

  /** Registration keeps the registry consistent, and never removes or
      rebinds an entry: the old order is a prefix of the new one and the old
      dictionary is contained in the new one, whatever the outcome. */
  lemma AddAliasesGrows(names: seq<string>, t: CommandType, order: seq<string>, types: map<string, CommandType>)
    requires Consistent(order, types)
    requires t.attribute.Some? && t.isCommand && names == t.attribute.value.names
    ensures Consistent(AddAliases(names, t, order, types).0, AddAliases(names, t, order, types).1)
    ensures var r := AddAliases(names, t, order, types); Extends(order, types, r.0, r.1, t)
  {
    AddAliasesConsistent(names, names, t, order, types);
    AddAliasesPrefix(names, t, order, types);
    forall k | k in types
      ensures k in AddAliases(names, t, order, types).1 && AddAliases(names, t, order, types).1[k] == types[k]
    {
      AddAliasesKeeps(names, t, order, types, k);
    }
    AddAliasesNew(names, t, order, types);
  }

  /** `order'` and `types'` extend `order` and `types` with entries for `t`
      only. */
  predicate Extends(order: seq<string>, types: map<string, CommandType>,
                    order': seq<string>, types': map<string, CommandType>, t: CommandType) {
    |order| <= |order'| && order'[..|order|] == order
    && (forall k :: k in types ==> k in types' && types'[k] == types[k])
    && (forall k :: k in types' && k !in types ==> types'[k] == t)
  }

  /** Adding one new key owned by `t` keeps the registry consistent. */
  lemma ConsistentAdd(order: seq<string>, types: map<string, CommandType>, key: string, t: CommandType)
    requires Consistent(order, types) && key !in types && Owns(t, key)
    ensures Consistent(order + [key], types[key := t])
  {
    var order' := order + [key];
    var types' := types[key := t];
    forall k | k in types' ensures k in order' {
      if k != key { assert k in order; }
    }
    forall i | 0 <= i < |order'| ensures order'[i] in types' {
      if i < |order| { assert order'[i] == order[i]; }
    }
  }

  /** The aliases still to add are among `all`, the attribute's list, so
      each key they add is owned by the type. */
  lemma {:induction false} AddAliasesConsistent(all: seq<string>, names: seq<string>, t: CommandType, order: seq<string>, types: map<string, CommandType>)
    requires Consistent(order, types)
    requires t.attribute.Some? && t.isCommand && all == t.attribute.value.names
    requires forall n :: n in names ==> n in all
    ensures Consistent(AddAliases(names, t, order, types).0, AddAliases(names, t, order, types).1)
    decreases |names|
  {
    if names != [] && !IsBlank(names[0]) && ToLower(names[0]) !in types {
      var key := ToLower(names[0]);
      assert names[0] in all;
      assert key in Keys(all);
      ConsistentAdd(order, types, key, t);
      assert forall n :: n in names[1..] ==> n in all;
      AddAliasesConsistent(all, names[1..], t, order + [key], types[key := t]);
    }
  }

  /** Every entry added while adding aliases is bound to the type. */
  lemma {:induction false} AddAliasesNew(names: seq<string>, t: CommandType, order: seq<string>, types: map<string, CommandType>)
    ensures forall k :: k in AddAliases(names, t, order, types).1 && k !in types ==> AddAliases(names, t, order, types).1[k] == t
    decreases |names|
  {
    if names != [] && !IsBlank(names[0]) && ToLower(names[0]) !in types {
      var key := ToLower(names[0]);
      AddAliasesNew(names[1..], t, order + [key], types[key := t]);
      AddAliasesKeeps(names[1..], t, order + [key], types[key := t], key);
    }
  }

  /** After a successful registration every alias of the type, lower-cased,
      leads to the type, the order has grown by the lower-cased aliases, and
      the old entries are untouched. */
  lemma AddAliasesPass(names: seq<string>, t: CommandType, order: seq<string>, types: map<string, CommandType>)
    requires AddAliases(names, t, order, types).2 == Pass
    ensures forall n :: n in names ==> ToLower(n) in AddAliases(names, t, order, types).1
    ensures forall n :: n in names ==> AddAliases(names, t, order, types).1[ToLower(n)] == t
    ensures AddAliases(names, t, order, types).0 == order + LowerAll(names)
    ensures forall k :: k in types ==> k in AddAliases(names, t, order, types).1 && AddAliases(names, t, order, types).1[k] == types[k]
  {
    AddAliasesPassNames(names, t, order, types);
    AddAliasesPassOrder(names, t, order, types);
    forall k | k in types
      ensures k in AddAliases(names, t, order, types).1 && AddAliases(names, t, order, types).1[k] == types[k]
    {
      AddAliasesKeeps(names, t, order, types, k);
    }
  }

  /** After a successful registration every alias, lower-cased, leads to
      the type. */
  lemma {:induction false} AddAliasesPassNames(names: seq<string>, t: CommandType, order: seq<string>, types: map<string, CommandType>)
    requires AddAliases(names, t, order, types).2 == Pass
    ensures forall n :: n in names ==>
      ToLower(n) in AddAliases(names, t, order, types).1 && AddAliases(names, t, order, types).1[ToLower(n)] == t
    decreases |names|
  {
    if names != [] {
      var key := ToLower(names[0]);
      var order' := order + [key];
      var types' := types[key := t];
      AddAliasesPassNames(names[1..], t, order', types');
      AddAliasesKeeps(names[1..], t, order', types', key);
      var r := AddAliases(names[1..], t, order', types');
      assert AddAliases(names, t, order, types) == r;
      forall n | n in names ensures ToLower(n) in r.1 && r.1[ToLower(n)] == t {
        if n != names[0] { assert n in names[1..]; }
      }
    }
  }

  /** After a successful registration the order has grown by the
      lower-cased aliases. */
  lemma {:induction false} AddAliasesPassOrder(names: seq<string>, t: CommandType, order: seq<string>, types: map<string, CommandType>)
    requires AddAliases(names, t, order, types).2 == Pass
    ensures AddAliases(names, t, order, types).0 == order + LowerAll(names)
    decreases |names|
  {
    if names != [] {
      var key := ToLower(names[0]);
      AddAliasesPassOrder(names[1..], t, order + [key], types[key := t]);
      assert order + [key] + LowerAll(names[1..]) == order + ([key] + LowerAll(names[1..]));
    }
  }

  /** The lower-cased aliases, in order. */
  function LowerAll(names: seq<string>): (r: seq<string>)
    ensures |r| == |names|
  {
    if names == [] then [] else [ToLower(names[0])] + LowerAll(names[1..])
  }

  /** The `i`-th lower-cased alias is the `i`-th alias lower-cased. */
  lemma {:induction false} LowerAllAt(names: seq<string>, i: nat)
    requires i < |names|
    ensures LowerAll(names)[i] == ToLower(names[i])
  {
    if i > 0 {
      LowerAllAt(names[1..], i - 1);
    }
  }

  /** No rollback: when the first `j` aliases are non-blank, pairwise
      different once lower-cased and not yet keys, they are registered to the
      type even if a later alias makes the registration fail. */
  lemma {:induction false} AddAliasesNoRollback(names: seq<string>, t: CommandType, order: seq<string>, types: map<string, CommandType>, j: nat)
    requires j <= |names|
    requires forall i :: 0 <= i < j ==> !IsBlank(names[i]) && ToLower(names[i]) !in types
    requires forall i, i' :: 0 <= i < i' < j ==> ToLower(names[i]) != ToLower(names[i'])
    ensures forall i :: 0 <= i < j ==> ToLower(names[i]) in AddAliases(names, t, order, types).1
    ensures forall i :: 0 <= i < j ==> AddAliases(names, t, order, types).1[ToLower(names[i])] == t
    ensures |order| + j <= |AddAliases(names, t, order, types).0|
    ensures AddAliases(names, t, order, types).0[..|order| + j] == order + LowerAll(names[..j])
    decreases j
  {
    AddAliasesPrefix(names, t, order, types);
    if j > 0 {
      var key := ToLower(names[0]);
      var order' := order + [key];
      var types' := types[key := t];
      var rest := names[1..];
      forall i | 0 <= i < j - 1 ensures !IsBlank(rest[i]) && ToLower(rest[i]) !in types' {
        assert rest[i] == names[i + 1];
      }
      forall i, i' | 0 <= i < i' < j - 1 ensures ToLower(rest[i]) != ToLower(rest[i']) {
        assert rest[i] == names[i + 1] && rest[i'] == names[i' + 1];
      }
      AddAliasesNoRollback(rest, t, order', types', j - 1);
      AddAliasesKeeps(rest, t, order', types', key);
      var r := AddAliases(rest, t, order', types');
      assert AddAliases(names, t, order, types) == r;
      forall i | 0 <= i < j ensures ToLower(names[i]) in r.1 && r.1[ToLower(names[i])] == t {
        if i > 0 { assert rest[i - 1] == names[i]; }
      }
      assert names[..j][1..] == rest[..j - 1];
      assert LowerAll(names[..j]) == [key] + LowerAll(rest[..j - 1]);
      assert order + LowerAll(names[..j]) == order' + LowerAll(rest[..j - 1]);
    }
  }

  /** The order only ever grows at its end. */
  lemma {:induction false} AddAliasesPrefix(names: seq<string>, t: CommandType, order: seq<string>, types: map<string, CommandType>)
    ensures |order| <= |AddAliases(names, t, order, types).0|
    ensures AddAliases(names, t, order, types).0[..|order|] == order
    decreases |names|
  {
    if names != [] && !IsBlank(names[0]) && ToLower(names[0]) !in types {
      var key := ToLower(names[0]);
      AddAliasesPrefix(names[1..], t, order + [key], types[key := t]);
      var r := AddAliases(names[1..], t, order + [key], types[key := t]);
      assert r.0[..|order|] == (r.0[..|order| + 1])[..|order|];
    }
  }

  /** An entry present before adding aliases is present afterwards, bound to
      the same type. */
  lemma {:induction false} AddAliasesKeeps(names: seq<string>, t: CommandType, order: seq<string>, types: map<string, CommandType>, k: string)
    requires k in types
    ensures k in AddAliases(names, t, order, types).1
    ensures AddAliases(names, t, order, types).1[k] == types[k]
    decreases |names|
  {
    if names != [] && !IsBlank(names[0]) && ToLower(names[0]) !in types {
      var key := ToLower(names[0]);
      AddAliasesKeeps(names[1..], t, order + [key], types[key := t], k);
    }
  }

  /** Registration fails for exactly one of the documented reasons, and a
      duplicate is reported under a key that is registered. */
  lemma {:induction false} RegistrationFailures(order: seq<string>, types: map<string, CommandType>, t: CommandType)
    requires Registration(order, types, t).2.Fail?
    ensures t.attribute.None? ==> Registration(order, types, t).2.error == MissingCommandAttribute(t.fullName)
    ensures t.attribute.Some? && !t.isCommand ==> Registration(order, types, t).2.error == NotACommand(t.fullName)
    ensures t.attribute.Some? && t.isCommand ==>
      (exists n :: n in t.attribute.value.names && IsBlank(n) && Registration(order, types, t).2.error == BlankAlias(t.fullName))
      || (exists n :: n in t.attribute.value.names && Registration(order, types, t).2.error == DuplicateKey(ToLower(n)) && ToLower(n) in Registration(order, types, t).1)
  {
    if t.attribute.Some? && t.isCommand {
      AddAliasesFailure(t.attribute.value.names, t, order, types);
    }
  }

  lemma {:induction false} AddAliasesFailure(names: seq<string>, t: CommandType, order: seq<string>, types: map<string, CommandType>)
    requires AddAliases(names, t, order, types).2.Fail?
    ensures (exists n :: n in names && IsBlank(n) && AddAliases(names, t, order, types).2.error == BlankAlias(t.fullName))
      || (exists n :: n in names && AddAliases(names, t, order, types).2.error == DuplicateKey(ToLower(n)) && ToLower(n) in AddAliases(names, t, order, types).1)
    decreases |names|
  {
    var key := ToLower(names[0]);
    if IsBlank(names[0]) || key in types {
      assert names[0] in names;
    } else {
      AddAliasesFailure(names[1..], t, order + [key], types[key := t]);
      var r := AddAliases(names, t, order, types);
      if exists n :: n in names[1..] && IsBlank(n) && r.2.error == BlankAlias(t.fullName) {
        var n :| n in names[1..] && IsBlank(n) && r.2.error == BlankAlias(t.fullName);
        assert n in names;
      } else {
        var n :| n in names[1..] && r.2.error == DuplicateKey(ToLower(n)) && ToLower(n) in r.1;
        assert n in names;
      }
    }
  }

  /** Alias `j` of `names` cannot be added: it is blank, its key is already in
      the dictionary, or an earlier alias of the same list has the same key. */
  predicate AliasRejected(names: seq<string>, types: map<string, CommandType>, j: nat)
    requires j < |names|
  {
    IsBlank(names[j]) || ToLower(names[j]) in types
    || exists i :: 0 <= i < j && ToLower(names[i]) == ToLower(names[j])
  }

  /** After the first alias is added, alias `j + 1` is rejected by the rest of
      the loop exactly when it is rejected from the start. */
  lemma AliasRejectedShift(names: seq<string>, t: CommandType, types: map<string, CommandType>, j: nat)
    requires j + 1 < |names|
    ensures AliasRejected(names[1..], types[ToLower(names[0]) := t], j) <==> AliasRejected(names, types, j + 1)
  {
    var rest := names[1..];
    var n := ToLower(names[j + 1]);
    assert rest[j] == names[j + 1];
    if exists i :: 0 <= i < j && ToLower(rest[i]) == n {
      var i :| 0 <= i < j && ToLower(rest[i]) == n;
      assert names[i + 1] == rest[i];
    }
    if exists i :: 0 <= i < j + 1 && ToLower(names[i]) == n {
      var i :| 0 <= i < j + 1 && ToLower(names[i]) == n;
      if i > 0 {
        assert rest[i - 1] == names[i];
      }
    }
  }

  /** The alias loop fails exactly when some alias is rejected: a blank alias
      always fails, and so does a key that is already present, whichever type
      owns it, including an earlier alias of the same type in another casing. */
  lemma {:induction false} AddAliasesFailsIff(names: seq<string>, t: CommandType, order: seq<string>, types: map<string, CommandType>)
    ensures AddAliases(names, t, order, types).2.Fail? <==> exists j :: 0 <= j < |names| && AliasRejected(names, types, j)
    decreases |names|
  {
    if names != [] {
      var key := ToLower(names[0]);
      if IsBlank(names[0]) || key in types {
        assert AliasRejected(names, types, 0);
      } else {
        var types' := types[key := t];
        AddAliasesFailsIff(names[1..], t, order + [key], types');
        assert !AliasRejected(names, types, 0);
        if exists j :: 0 <= j < |names| && AliasRejected(names, types, j) {
          var j :| 0 <= j < |names| && AliasRejected(names, types, j);
          AliasRejectedShift(names, t, types, j - 1);
          assert AliasRejected(names[1..], types', j - 1);
        }
        if exists j :: 0 <= j < |names| - 1 && AliasRejected(names[1..], types', j) {
          var j :| 0 <= j < |names| - 1 && AliasRejected(names[1..], types', j);
          AliasRejectedShift(names, t, types, j);
          assert AliasRejected(names, types, j + 1);
        }
      }
    }
  }

  /** `RegisterCommandType` fails exactly when the attribute is missing, the
      type is no command, or one of its aliases is rejected. */
  lemma RegistrationFailsIff(order: seq<string>, types: map<string, CommandType>, t: CommandType)
    ensures Registration(order, types, t).2.Fail? <==>
      t.attribute.None? || !t.isCommand
      || exists j :: 0 <= j < |t.attribute.value.names| && AliasRejected(t.attribute.value.names, types, j)
  {
    if t.attribute.Some? && t.isCommand {
      AddAliasesFailsIff(t.attribute.value.names, t, order, types);
    }
  }

  /** Two aliases of one type that differ only in case make its
      registration fail, even in an empty registry. */
  lemma CaseDuplicateFails(t: CommandType)
    requires t.attribute.Some? && t.isCommand && |t.attribute.value.names| == 2
    requires EqualsIgnoreCase(t.attribute.value.names[0], t.attribute.value.names[1])
    ensures Registration([], map[], t).2.Fail?
  {
    var names := t.attribute.value.names;
    assert AliasRejected(names, map[], 1);
    RegistrationFailsIff([], map[], t);
  }

  /** After a successful registration, `GetCommandType` finds the type under
      every casing of every one of its aliases. */
  lemma LookupAfterRegistration(order: seq<string>, types: map<string, CommandType>, t: CommandType, n: string, query: string)
    requires Registration(order, types, t).2 == Pass
    requires t.attribute.Some? && n in t.attribute.value.names && EqualsIgnoreCase(query, n)
    ensures Lookup(Registration(order, types, t).1, query) == Ok(t)
  {
    AddAliasesPass(t.attribute.value.names, t, order, types);
  }

  /** Registering the same type twice fails at its first alias: every key it
      would add is already present. */
  lemma RegisterTwice(order: seq<string>, types: map<string, CommandType>, t: CommandType)
    requires Registration(order, types, t).2 == Pass
    requires t.attribute.Some? && |t.attribute.value.names| > 0
    ensures var r := Registration(order, types, t);
      Registration(r.0, r.1, t) == (r.0, r.1, Fail(DuplicateKey(ToLower(t.attribute.value.names[0]))))
  {
    AddAliasesPass(t.attribute.value.names, t, order, types);
    assert t.attribute.value.names[0] in t.attribute.value.names;
  }

  /** A type registered with k aliases is listed k more times, after the
      entries already there. */
  lemma RegistrationListing(order: seq<string>, types: map<string, CommandType>, t: CommandType)
    requires Consistent(order, types)
    requires Registration(order, types, t).2 == Pass
    ensures var r := Registration(order, types, t);
      Consistent(r.0, r.1)
      && Listing(r.0, r.1) == Listing(order, types) + seq(|t.attribute.value.names|, _ => t)
  {
    var names := t.attribute.value.names;
    AddAliasesGrows(names, t, order, types);
    AddAliasesPassOrder(names, t, order, types);
    var r := Registration(order, types, t);
    var L := Listing(r.0, r.1);
    var R := Listing(order, types) + seq(|names|, _ => t);
    assert |L| == |R|;
    forall i | 0 <= i < |L| ensures L[i] == R[i] {
      RegisteredAt(order, types, t, i);
    }
  }

  /** The `i`-th entry after a successful registration: an old entry, or
      one of the type's aliases. */
  lemma RegisteredAt(order: seq<string>, types: map<string, CommandType>, t: CommandType, i: nat)
    requires Consistent(order, types)
    requires Registration(order, types, t).2 == Pass
    requires i < |order| + |t.attribute.value.names|
    ensures var r := Registration(order, types, t);
      i < |r.0| && r.0[i] in r.1 && r.1[r.0[i]] == if i < |order| then types[order[i]] else t
  {
    var names := t.attribute.value.names;
    AddAliasesPass(names, t, order, types);
    var r := Registration(order, types, t);
    if i < |order| {
      assert r.0[i] == order[i];
    } else {
      LowerAllAt(names, i - |order|);
      assert r.0[i] == ToLower(names[i - |order|]);
      assert names[i - |order|] in names;
    }
  }

  /** A registry with one command of two different aliases lists that
      command twice. */
  lemma TwoAliasesListedTwice(t: CommandType)
    requires t.attribute.Some? && t.isCommand && |t.attribute.value.names| == 2
    requires forall i :: 0 <= i < 2 ==> !IsBlank(t.attribute.value.names[i])
    requires ToLower(t.attribute.value.names[0]) != ToLower(t.attribute.value.names[1])
    ensures var r := Registration([], map[], t);
      r.2 == Pass && Consistent(r.0, r.1) && Listing(r.0, r.1) == [t, t]
  {
    var names := t.attribute.value.names;
    var k0 := ToLower(names[0]);
    var k1 := ToLower(names[1]);
    assert !IsBlank(names[0]) && !IsBlank(names[1]);
    assert names[1..][0] == names[1];
    assert names[1..][1..] == [];
    assert [] + [k0] == [k0] && [k0] + [k1] == [k0, k1];
    assert AddAliases(names, t, [], map[]) == AddAliases(names[1..], t, [k0], map[k0 := t]);
    assert AddAliases(names[1..], t, [k0], map[k0 := t]) == AddAliases([], t, [k0, k1], map[k0 := t, k1 := t]);
    RegistrationListing([], map[], t);
  }
}
