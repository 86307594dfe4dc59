# ConsoleFramework command resolution in Dafny

This project models the part of ConsoleFramework that turns a console input line
or an argv array into a command object with typed argument values:

- **Tokenizer** (`Tokenizer.dfy`): `CommandFactory.GetTokens` splits a line on spaces
  that lie outside double quotes. The quotes stay in the tokens.
- **Token classification** (`ArgumentSyntax.dfy`): `GetArgumentName` / `GetArgumentValue`
  use .NET `Split('=')`, `Trim('"')` and `StartsWith("--")`, which are written out in
  `Text.dfy`. `Split` and `Trim` follow .NET exactly. `StartsWith` is modelled as an
  ordinal prefix test, while .NET compares under the current culture (see "Left out").
  Both source files carry identical copies of these helpers; they are defined once here.
- **Coercion** (`Coercion.dfy`): `ConvertArgumentValue` / `GetDefaultValue` over a small
  type universe: string, `int`, `bool`, enumerations, `Nullable<T>`, plus `double` for
  the help text only. A conversion either succeeds, fails with a `FormatException`
  (which the binders catch and re-throw), or fails in another way that no handler
  catches.
- **The positional binder** (`Factory.dfy`): the private `CommandFactory.CreateCommand`
  loop binds slot *i* to `args[i]`. The two public overloads take the command name
  from token 0 or `args[0]` and look it up in the registry.
- **The queue binder** (`Injector.dfy`): `CommandArgumentInjector` is a class whose
  `Fill` caches the tokens into a dictionary of named values and a FIFO queue of
  positional values. It then fills the required slots first and the optional slots
  second.
- **The registry** (`Registry.dfy`): `CommandRegistry` is a class that holds the
  dictionary from lower-cased alias to command type. It validates registration,
  looks names up regardless of case, and lists one entry per alias.
- **Help rendering** (`Help.dfy`): `HelpCommand` builds the example-usage string, the
  description of one command, the command listing, and the choice between them.
  Console output is modelled as the sequence of lines handed to `WriteLine`.

Reflection is replaced by explicit metadata (`Metadata.dfy`):

- A command type is a `CommandType` value: its full name, its `CommandAttribute` if
  any, whether it implements `IBaseCommand`, and its argument properties as a
  sequence of `Slot`s in declaration order.
- A command object is a `CommandInstance` whose `properties` map goes from property
  name to `Value`. Setting a property is a map update.
- Every exception the core throws is an `Error` value. `Metadata.Message` gives its
  message text: for the core's own exceptions, the text the source builds; for those
  of the .NET runtime, its English message (see "Left out").

The imperative parts of the source stay imperative:

- `GetTokens`, the positional binder loop, `RegisterCommandType`, `GetExampleUsage`,
  and the injector's `CacheArguments` and `SetArguments` are Dafny methods with loops.
- The injector's `Fill`, `GetArgument`, `SetRequiredArguments` and
  `SetOptionalArguments` have no loop of their own. They are methods that update the
  injector's fields.
- Each of these methods is proved equal to a specification function (`Tokens`, `Bound`,
  `Registration`, `Usage`, `CacheFrom`, `Take`, `SetSlots`, `FillSpec`).
- The properties the source promises are proved as lemmas about those functions.

Behaviour of the code a reader might not expect:

- A named value in the injector is read but never removed from the dictionary
  (ConsoleFramework/CommandArgumentInjector.cs:170-184).
- `CreateCommand(string)` binds with the positional binder, not with the injector
  (ConsoleFramework/CommandFactory.cs:19-31).
- An unknown enumeration member makes `Enum.Parse` throw an `ArgumentException`. No
  handler catches it, so it is not reported as a format error
  (ConsoleFramework/CommandFactory.cs:159).
- Re-registering an alias fails even when the same type owns it
  (ConsoleFramework/CommandRegistry.cs:47).
- A required slot fails on an empty value too, not only when the queue is empty
  (ConsoleFramework/CommandArgumentInjector.cs:91-95).

## Model

| member | source | states |
|---|---|---|
| Tokenizer.GetTokens | ConsoleFramework/CommandFactory.cs:185-212 | the loop over the characters returns exactly `Tokens(input)`, the token sequence the laws below are proved about |
| Tokenizer.Tokens | ConsoleFramework/CommandFactory.cs:185-212 | the result always holds at least one token |
| Tokenizer.TokensSnoc | ConsoleFramework/CommandFactory.cs:191-207 | one more character changes the tokens by one step of the loop, taken under the quote state of the prefix |
| Tokenizer.QuotesSnoc | ConsoleFramework/CommandFactory.cs:193-196 | a quote character toggles the quote state and every other character leaves it as it was |
| Tokenizer.JoinTokens | ConsoleFramework/CommandFactory.cs:191-209 | joining the tokens with single spaces gives back the input exactly, quotes included |
| Tokenizer.TokenCount | ConsoleFramework/CommandFactory.cs:191-209 | the number of tokens is one plus the number of spaces outside double quotes (so the empty line is one empty token) |
| Tokenizer.TokensShape | ConsoleFramework/CommandFactory.cs:193-209 | every space inside a token is quoted; every token except the last closes its quotes; the last token is open exactly when the whole input is |
| Tokenizer.TokensOfJoin | ConsoleFramework/CommandFactory.cs:191-209 | tokens that are well formed in that sense are recovered exactly by tokenizing their space-join, empty tokens included |
| Tokenizer.AppendToLast | ConsoleFramework/CommandFactory.cs:193-206 | text whose spaces are all quoted extends the last token and creates no new one |
| Tokenizer.ExtendLast | ConsoleFramework/CommandFactory.cs:198-206 | one character other than an unquoted space extends the last token by that character |
| Tokenizer.QuotesAppend | ConsoleFramework/CommandFactory.cs:193-196 | the quote state of a concatenation is the exclusive or of the quote states of its parts |
| Tokenizer.SingleWord | ConsoleFramework/CommandFactory.cs:198-209 | a line without spaces is a single token |
| Tokenizer.WordThenSpace | ConsoleFramework/CommandFactory.cs:198-209 | a trailing unquoted space yields a trailing empty token |
| Tokenizer.HeadToken | ConsoleFramework/CommandFactory.cs:198-201 | a quote-free, space-free command name followed by a space is token 0, and the rest of the line is tokenized on its own |
| ArgumentSyntax.ArgumentName | ConsoleFramework/CommandFactory.cs:107-122 | a name exists exactly when the token starts with `--`; it holds no `=` and is the text between the dashes and the first `=` or the end of the token |
| ArgumentSyntax.ArgumentValue | ConsoleFramework/CommandFactory.cs:124-145 | a token without `--` has itself with every edge quote trimmed as its value; a `--` token without `=` has the value `true` |
| ArgumentSyntax.FlagToken | ConsoleFramework/CommandFactory.cs:136-141 | `--name` has the name `name` and the value `true` |
| ArgumentSyntax.AssignmentToken | ConsoleFramework/CommandFactory.cs:119-121 | for `--name=v` followed by nothing or by further `=`-segments, the name is `name` and the value is `v` with its quotes trimmed; later segments are dropped |
| ArgumentSyntax.AssignmentSegments | ConsoleFramework/CommandFactory.cs:136-143 | `Split('=')` of such a token has `--name` as segment 0 and `v` as segment 1 |
| ArgumentSyntax.EmptyNames | ConsoleFramework/CommandArgumentInjector.cs:240-283 | `--` and `--=x` both have the empty name; their values are `true` and `x` quote-trimmed |
| ArgumentSyntax.SecondPassStable | ConsoleFramework/CommandArgumentInjector.cs:97 | reading a value a second time changes nothing unless the first value itself starts with `--` |
| ArgumentSyntax.Reparsed | ConsoleFramework/CommandArgumentInjector.cs:97 | a quoted token `"--n=w"` reads as `--n=w` the first time and as `w` the second time |
| Metadata.Message | ConsoleFramework/CommandFactory.cs:59-96 | no contract of its own: the message text of each error, such as the missing-argument and unexpected-argument texts built at lines 61 and 74 and the invalid cast naming the enumeration's full name |
| Metadata.TypeName | ConsoleFramework/Commands/HelpCommand.cs:77 | no contract of its own: the `PropertyType.Name` shown on an argument line; `ArgumentLineDescription` states the line it appears in |
| Coercion.ParseInt32 | ConsoleFramework/CommandFactory.cs:160 | a successful parse is an integer within the 32-bit range, and the only non-format failure is overflow |
| Coercion.ParseBoolean | ConsoleFramework/CommandFactory.cs:160 | a successful parse is a boolean, and every failure is a format failure |
| Coercion.FirstMatch | ConsoleFramework/CommandFactory.cs:159 | the result is the first member, from index k on, that equals the name ignoring case, and it is none when no member does |
| Coercion.ParseEnum | ConsoleFramework/CommandFactory.cs:159 | success is an ordinal of a declared member; failure is never a format failure, so no handler catches it |
| Coercion.DefaultValue | ConsoleFramework/CommandFactory.cs:175-183 | the default has the declared type, and it is null exactly for reference types and `Nullable<T>` |
| Coercion.ConvertArgumentValue | ConsoleFramework/CommandFactory.cs:147-173 | a converted value has the declared type, and an absent argument always converts to the default |
| Coercion.ConvertValue | ConsoleFramework/CommandFactory.cs:158-160 | a converted value has the value type asked for; an enumeration never gives a format failure; the only other failures are overflow and the two `Enum.Parse` failures |
| Coercion.NullableWraps | ConsoleFramework/CommandFactory.cs:164-172 | `Nullable<T>` converts like `T` and defaults to null; a nullable enumeration fails with an invalid cast |
| Coercion.IntegerConverted | ConsoleFramework/CommandFactory.cs:160 | an `int` property converts through the Int32 parser |
| Coercion.BooleanConverted | ConsoleFramework/CommandFactory.cs:160 | a `bool` property converts through the Boolean parser |
| Coercion.DecimalDigits | ConsoleFramework/CommandFactory.cs:160 | the decimal rendering of a natural number is a non-empty string of digits |
| Coercion.DigitsValueOfDecimal | ConsoleFramework/CommandFactory.cs:160 | reading the decimal rendering of n gives n back |
| Coercion.ParseInt32RoundTrip | ConsoleFramework/CommandFactory.cs:160 | every 32-bit integer, written in decimal, parses back to itself |
| Coercion.ParseInt32Rejects | ConsoleFramework/CommandFactory.cs:160 | a string with no digit at all is a format failure |
| Coercion.ParseBooleanCasing | ConsoleFramework/CommandFactory.cs:160 | `True` and `False` in any casing parse to their boolean |
| Coercion.EnumIgnoresCase | ConsoleFramework/CommandFactory.cs:159 | a member name in any casing parses to the first member with that name |
| Factory.ArgAt | ConsoleFramework/CommandFactory.cs:65 | there is an argument at position i exactly when i is within the arguments, and it is `args[i]` |
| Factory.BindSlot | ConsoleFramework/CommandFactory.cs:59-96 | a successful binding has the declared type of the property |
| Factory.Bindings | ConsoleFramework/CommandFactory.cs:49-97 | slot i is bound to argument i, one result per slot |
| Factory.Writes | ConsoleFramework/CommandFactory.cs:84-90 | no contract of its own: writes the bound values in slot order and stops at the first error; `BoundOk`, `BoundKeys`, `BoundValues` and `BoundFirstError` state what it yields |
| Factory.Bound | ConsoleFramework/CommandFactory.cs:49-97 | no contract of its own: the loop's result, the writes of the per-slot bindings; `CreateCommandOfType` is proved equal to it and the `Bound…` lemmas state its properties |
| Factory.CreateCommandOfType | ConsoleFramework/CommandFactory.cs:43-100 | the loop yields a fresh command exactly when `Bound` succeeds, with exactly the properties `Bound` computes; otherwise it fails with the error `Bound` reports |
| Factory.BindArgument | ConsoleFramework/CommandFactory.cs:59-96 | one pass of the loop body computes `BindSlot` for the slot and its position |
| Factory.BoundOk | ConsoleFramework/CommandFactory.cs:49-97 | binding succeeds exactly when every slot binds on its own |
| Factory.BoundKeys | ConsoleFramework/CommandFactory.cs:84-90 | a successful binding writes every argument property and nothing else |
| Factory.BoundValueAt | ConsoleFramework/CommandFactory.cs:84-90 | after a successful binding, property i holds the value slot i bound from argument i |
| Factory.BoundValues | ConsoleFramework/CommandFactory.cs:84-90 | the same holds for every slot at once |
| Factory.BoundFirstError | ConsoleFramework/CommandFactory.cs:49-97 | a failed binding reports the error of the first slot that fails; every slot before it binds |
| Factory.BoundStopsAt | ConsoleFramework/CommandFactory.cs:49-97 | once the slots before j bind, a failing slot j decides the result |
| Factory.BoundErrPersists | ConsoleFramework/CommandFactory.cs:49-97 | once a prefix of the slots fails, later slots cannot change the error |
| Factory.BindingsPrefix | ConsoleFramework/CommandFactory.cs:49-97 | binding a prefix of the slots gives the prefix of the bindings |
| Factory.SurplusIgnored | ConsoleFramework/CommandFactory.cs:49-65 | arguments beyond the last slot do not change the result |
| Factory.OptionalPastEnd | ConsoleFramework/CommandFactory.cs:65 | an optional slot with no argument holds the default of its type |
| Factory.MissingRequired | ConsoleFramework/CommandFactory.cs:59-63 | the first required slot with no argument fails with the missing-argument error naming the argument and the command |
| Factory.WrongNameRejected | ConsoleFramework/CommandFactory.cs:68-77 | a named token whose name is not the slot's name, the empty name included, fails with the unexpected-argument error, whether or not the slot is required |
| Factory.FormatErrorReported | ConsoleFramework/CommandFactory.cs:91-96 | a format failure reports the value that was read and the argument name |
| Factory.FlagSetsBoolean | ConsoleFramework/CommandFactory.cs:79 | `--name` in the position of a `bool` property named `name` sets it to true |
| Factory.PastEndDefault | ConsoleFramework/CommandFactory.cs:65 | an optional slot with no argument binds to its default |
| Factory.PositionalStringBinds | ConsoleFramework/CommandFactory.cs:79-87 | a plain token in the position of a string property binds to its quote-trimmed text |
| Factory.NamedIntegerBinds | ConsoleFramework/CommandFactory.cs:79-87 | `--name=k` in the position of an `int` property named `name` binds to k |
| Factory.CommandFactory.CreateCommandFromArgs | ConsoleFramework/CommandFactory.cs:33-41 | the command comes from `Resolve`: `args[0]` names the command and the rest are bound |
| Factory.CommandFactory.CreateCommandFromInput | ConsoleFramework/CommandFactory.cs:19-31 | the command comes from `Resolve` over the tokens of the input line |
| Factory.Resolve | ConsoleFramework/CommandFactory.cs:19-41 | an empty argument array fails as `args[0]` does; an unregistered name fails with the unknown-command error naming it; a registered name binds the remaining arguments to its type's slots |
| Factory.ResolveLine | ConsoleFramework/CommandFactory.cs:19-31 | for a plain command name, resolving a line is resolving the name with the tokens of the rest of the line |
| Factory.BoundTwo | ConsoleFramework/CommandFactory.cs:49-97 | with two slots, the first failure wins; when neither fails, both properties are written |
| Factory.StringThenNamedInteger | ConsoleFramework/CommandFactory.cs:49-97 | a string slot then an `int` slot bind a plain token and `--name=k` |
| Factory.ExampleCommandBinds | ConsoleFramework.Startup/Examples/ExampleCommand.cs:8-11 | `example m --optional=k` sets Message to m quote-trimmed and Optional to k |
| Factory.ExampleCommandDefault | ConsoleFramework.Startup/Examples/ExampleCommand.cs:8-11 | `example m` sets Message and leaves Optional at 0 |
| Factory.ExampleCommandMissing | ConsoleFramework.Startup/Examples/ExampleCommand.cs:8-9 | `example` alone fails because `message` is missing |
| Injector.RequiredSlots | ConsoleFramework/CommandArgumentInjector.cs:31 | holds only required slots of the type; `RequiredSlotsAppend` states that it keeps their order |
| Injector.OptionalSlots | ConsoleFramework/CommandArgumentInjector.cs:32 | holds only optional slots of the type; `OptionalSlotsAppend` states that it keeps their order |
| Injector.PartitionSlots | ConsoleFramework/CommandArgumentInjector.cs:31-32 | the required and the optional slots together are exactly the slots of the type |
| Injector.RequiredSlotsAppend | ConsoleFramework/CommandArgumentInjector.cs:31 | the required slots of two slot lists one after the other are the required slots of each, in that order, so `Where` keeps property order |
| Injector.OptionalSlotsAppend | ConsoleFramework/CommandArgumentInjector.cs:32 | the same for the optional slots |
| Injector.SlotsOne | ConsoleFramework/CommandArgumentInjector.cs:31-32 | a single slot goes to the required group or to the optional group, as its flag says |
| Injector.NamedKey | ConsoleFramework/CommandArgumentInjector.cs:62-71 | a token is cached under a name exactly when its name is non-empty |
| Injector.Take | ConsoleFramework/CommandArgumentInjector.cs:170-184 | a named value is read without being removed; otherwise the head of the queue is dequeued; otherwise the result is empty |
| Injector.CacheFrom | ConsoleFramework/CommandArgumentInjector.cs:55-73 | no contract of its own: the cache built from the tokens in order; `CacheArguments` is proved equal to it, and `CachePassIff`, `CacheQueue`, `CacheNamed`, `CacheKeeps` and `CacheOnlyNames` state its properties |
| Injector.SetSlots | ConsoleFramework/CommandArgumentInjector.cs:79-148 | no contract of its own: the slots set one by one through `Take`; `SetArguments` is proved equal to it, and `WritesElsewhere`, `NoRollback`, `QueueInOrder`, `AssignedAt` and the empty-argument lemmas state its properties |
| Injector.FillSpec | ConsoleFramework/CommandArgumentInjector.cs:43-49 | no contract of its own: caching, then the required slots, then the optional slots; `Fill` is proved equal to it, and `DuplicateFailsFirst` and `FillPositional` state its properties |
| Injector.CommandArgumentInjector.constructor | ConsoleFramework/CommandArgumentInjector.cs:27-36 | the command name is the first alias, and the slots are partitioned into required and optional in property order |
| Injector.CommandArgumentInjector.Fill | ConsoleFramework/CommandArgumentInjector.cs:43-49 | the outcome, the cache and the properties afterwards are those of `FillSpec`, from the given arguments alone |
| Injector.CommandArgumentInjector.CacheArguments | ConsoleFramework/CommandArgumentInjector.cs:55-73 | starting from cleared collections, the cache becomes `CacheFrom(args)` whatever it held before |
| Injector.CommandArgumentInjector.GetArgument | ConsoleFramework/CommandArgumentInjector.cs:170-184 | the argument and the new cache are those of `Take` |
| Injector.CommandArgumentInjector.SetRequiredArguments | ConsoleFramework/CommandArgumentInjector.cs:79-111 | the required slots are set in order as `SetSlots` states, failing on an empty argument |
| Injector.CommandArgumentInjector.SetOptionalArguments | ConsoleFramework/CommandArgumentInjector.cs:117-148 | the optional slots are set in order as `SetSlots` states, skipping an empty argument |
| Injector.CommandArgumentInjector.SetArguments | ConsoleFramework/CommandArgumentInjector.cs:81-110 | the loop shared by both setters computes `SetSlots` |
| Injector.CachePassIff | ConsoleFramework/CommandArgumentInjector.cs:60-72 | caching succeeds exactly when no non-empty name occurs twice; the only failure is a duplicate key |
| Injector.CacheQueue | ConsoleFramework/CommandArgumentInjector.cs:64-67 | the queue holds the values of the unnamed tokens in input order |
| Injector.CacheNamed | ConsoleFramework/CommandArgumentInjector.cs:68-71 | every named token's value is cached under its name |
| Injector.CacheKeeps | ConsoleFramework/CommandArgumentInjector.cs:60-72 | caching never drops or changes an entry already present |
| Injector.CacheOnlyNames | ConsoleFramework/CommandArgumentInjector.cs:60-72 | every cached name comes from a token |
| Injector.CacheAllPositional | ConsoleFramework/CommandArgumentInjector.cs:64-67 | tokens without names only extend the queue |
| Injector.CacheOne | ConsoleFramework/CommandArgumentInjector.cs:60-72 | one token is queued or cached according to its name |
| Injector.EmptyNamesQueued | ConsoleFramework/CommandArgumentInjector.cs:64-66 | `--` and `--=x` are queued as `true` and `x` |
| Injector.DuplicateFailsFirst | ConsoleFramework/CommandArgumentInjector.cs:45-48 | a repeated name fails with a duplicate key before any property is written |
| Injector.WritesElsewhere | ConsoleFramework/CommandArgumentInjector.cs:79-148 | a property outside the slots being set keeps its value |
| Injector.NoRollback | ConsoleFramework/CommandArgumentInjector.cs:99-109 | the first slot's converted value stays written, whatever happens at later slots |
| Injector.QueueInOrder | ConsoleFramework/CommandArgumentInjector.cs:83-110 | string slots take the queued values one by one in order, and the rest of the queue remains |
| Injector.AssignedAt | ConsoleFramework/CommandArgumentInjector.cs:97-101 | slot i receives the re-read value of queue entry i |
| Injector.AssignedElsewhere | ConsoleFramework/CommandArgumentInjector.cs:97-101 | properties outside the slots are left alone |
| Injector.FillPositional | ConsoleFramework/CommandArgumentInjector.cs:43-49 | with only positional tokens, the required slots take the first values and the optional slots take the next ones |
| Injector.EmptyAssignmentCached | ConsoleFramework/CommandArgumentInjector.cs:68-71 | `--n=` caches the empty value under `n` |
| Injector.EmptyQuotesCached | ConsoleFramework/CommandArgumentInjector.cs:64-67 | the token `""` queues the empty value |
| Injector.EmptyRequiredMissing | ConsoleFramework/CommandArgumentInjector.cs:91-95 | a required slot whose argument is `--n=` or `""` fails with the missing-argument error |
| Injector.EmptyOptionalSkipped | ConsoleFramework/CommandArgumentInjector.cs:129-132 | an optional slot with an empty argument is skipped and the properties are unchanged |
| Injector.QuotedAssignmentCached | ConsoleFramework/CommandArgumentInjector.cs:64-66 | a quoted `"--n=w"` is queued as the text `--n=w` |
| Injector.QuotedAssignmentReparsed | ConsoleFramework/CommandArgumentInjector.cs:97 | when such a value reaches a string slot it is re-read, so the slot holds `w` |
| Registry.AddAliases | ConsoleFramework/CommandRegistry.cs:39-48 | no contract of its own: the alias loop; `AddAliasesFailsIff` and the `AddAliases…` lemmas state its outcome and what it adds |
| Registry.Registration | ConsoleFramework/CommandRegistry.cs:24-49 | no contract of its own: the checks, then the alias loop; `RegisterCommandType` is proved equal to it, and `RegistrationFailsIff` states when it fails |
| Registry.Lookup | ConsoleFramework/CommandRegistry.cs:57-67 | a lookup succeeds exactly when the lower-cased name is a key, returns that key's type, and otherwise reports the unknown name |
| Registry.Listing | ConsoleFramework/CommandRegistry.cs:73 | one entry per key, in the order the keys were added |
| Registry.CommandRegistry.Valid | ConsoleFramework/CommandRegistry.cs:11 | the class invariant: the alias order and the dictionary agree, keys are unique, and each key is a lower-cased alias of the registered type it maps to |
| Registry.CommandRegistry.constructor | ConsoleFramework/CommandRegistry.cs:11 | a new registry is empty and consistent |
| Registry.CommandRegistry.RegisterCommandType | ConsoleFramework/CommandRegistry.cs:24-49 | the new registry and the outcome are those of `Registration`, and consistency is kept |
| Registry.CommandRegistry.GetCommandType | ConsoleFramework/CommandRegistry.cs:57-67 | the same as `Lookup` on the dictionary; reading it changes nothing |
| Registry.CommandRegistry.GetAllCommandTypes | ConsoleFramework/CommandRegistry.cs:73 | one entry per registered alias, in insertion order |
| Registry.AddAliasesGrows | ConsoleFramework/CommandRegistry.cs:39-48 | registering keeps the registry consistent and only adds keys owned by the new type |
| Registry.ConsistentAdd | ConsoleFramework/CommandRegistry.cs:47 | adding a new key owned by the type keeps the registry consistent |
| Registry.AddAliasesConsistent | ConsoleFramework/CommandRegistry.cs:39-48 | adding any subsequence of the type's aliases keeps the registry consistent |
| Registry.AddAliasesNew | ConsoleFramework/CommandRegistry.cs:47 | every new key belongs to the registered type |
| Registry.AddAliasesPass | ConsoleFramework/CommandRegistry.cs:39-48 | after a successful pass every alias is a lower-cased key for the type, the keys follow the aliases in order, and old entries are unchanged |
| Registry.AddAliasesPassNames | ConsoleFramework/CommandRegistry.cs:47 | after a successful pass every alias, lower-cased, maps to the type |
| Registry.AddAliasesPassOrder | ConsoleFramework/CommandRegistry.cs:47 | after a successful pass the keys are appended in alias order |
| Registry.LowerAllAt | ConsoleFramework/CommandRegistry.cs:47 | key i is alias i lower-cased |
| Registry.AddAliasesNoRollback | ConsoleFramework/CommandRegistry.cs:39-48 | aliases added before a failing one stay registered, in order |
| Registry.AddAliasesPrefix | ConsoleFramework/CommandRegistry.cs:39-48 | registration never reorders or removes existing keys |
| Registry.AddAliasesKeeps | ConsoleFramework/CommandRegistry.cs:39-48 | existing entries keep their types |
| Registry.RegistrationFailures | ConsoleFramework/CommandRegistry.cs:24-49 | a failure is the missing attribute, or the missing interface, or a blank alias, or an alias whose lower-cased key is already present |
| Registry.AddAliasesFailure | ConsoleFramework/CommandRegistry.cs:39-48 | an alias loop fails only on a blank alias or on an existing key |
| Registry.AliasRejectedShift | ConsoleFramework/CommandRegistry.cs:39-48 | once the first alias is added, a later alias is rejected against the new dictionary exactly when it is rejected in the original list |
| Registry.AddAliasesFailsIff | ConsoleFramework/CommandRegistry.cs:39-48 | the alias loop fails exactly when some alias is blank, or lower-cases to a key already present, or lower-cases to the same key as an earlier alias |
| Registry.RegistrationFailsIff | ConsoleFramework/CommandRegistry.cs:24-49 | registration fails exactly when the attribute is missing, or the interface is missing, or some alias is rejected as above |
| Registry.CaseDuplicateFails | ConsoleFramework/CommandRegistry.cs:47 | two aliases equal ignoring case, such as `a` and `A`, make registration of the type fail |
| Registry.LookupAfterRegistration | ConsoleFramework/CommandRegistry.cs:57-67 | after a successful registration, every casing of every alias finds the type |
| Registry.RegisterTwice | ConsoleFramework/CommandRegistry.cs:47 | registering the same type again fails at its first alias and changes nothing |
| Registry.RegistrationListing | ConsoleFramework/CommandRegistry.cs:73 | a successful registration appends the type to the listing once per alias |
| Registry.RegisteredAt | ConsoleFramework/CommandRegistry.cs:73 | listing entry i is an old entry before the old length and the new type after it |
| Registry.TwoAliasesListedTwice | ConsoleFramework/CommandRegistry.cs:73 | a type with two distinct aliases is listed twice |
| Help.ExampleValue | ConsoleFramework/Commands/HelpCommand.cs:84-102 | no contract of its own: the example value of a type; `ExampleValueAccepted` and the lemmas after it state that each converts back |
| Help.StringExampleRead | ConsoleFramework/Commands/HelpCommand.cs:101 | the quoted example string reads back as the text inside the quotes |
| Help.ExampleValueAccepted | ConsoleFramework/Commands/HelpCommand.cs:84-102 | the examples for `int`, `bool` and string convert to 42, true and the example text; the example for `int?` is a format failure |
| Help.IntegerExampleAccepted | ConsoleFramework/Commands/HelpCommand.cs:86-88 | the example for `int` converts to 42 |
| Help.BooleanExampleAccepted | ConsoleFramework/Commands/HelpCommand.cs:96-98 | the example for `bool` converts to true |
| Help.StringExampleAccepted | ConsoleFramework/Commands/HelpCommand.cs:101 | the example for a string converts to the example text |
| Help.NullableExampleRejected | ConsoleFramework/Commands/HelpCommand.cs:101 | the example for `int?` is the quoted string, which fails to convert |
| Help.ExampleArgument | ConsoleFramework/Commands/HelpCommand.cs:113-124 | no contract of its own: a required argument is its bare example value and an optional one `[--name=value]`; `ExampleArgumentToken` and `OptionalExampleNamesSlot` state its properties |
| Help.ExampleArguments | ConsoleFramework/Commands/HelpCommand.cs:111-125 | one example argument per slot, in property order |
| Help.Usage | ConsoleFramework/Commands/HelpCommand.cs:104-131 | no contract of its own: the usage string; `GetExampleUsage` is proved equal to it, and `UsageTokens` states it tokenizes back into the first alias and the example arguments |
| Help.GetExampleUsage | ConsoleFramework/Commands/HelpCommand.cs:104-131 | the loop builds exactly `Usage(t)`: the first alias, a space, and the example arguments joined by single spaces |
| Help.QuotedWord | ConsoleFramework/Commands/HelpCommand.cs:101 | the quoted example string is one token whose quotes are balanced |
| Help.ExampleArgumentToken | ConsoleFramework/Commands/HelpCommand.cs:113-124 | every example argument is a single, balanced token |
| Help.UsageTokens | ConsoleFramework/Commands/HelpCommand.cs:127-130 | tokenizing the usage string gives the first alias followed by the example arguments |
| Help.OptionalExampleNamesSlot | ConsoleFramework/Commands/HelpCommand.cs:115-122 | an optional example `[--name=value]` is bracketed; inside the brackets it names the slot and carries the example value |
| Help.Describe | ConsoleFramework/Commands/HelpCommand.cs:56-82 | no contract of its own: the lines `DisplayCommandHelp` writes; `DescribeLines` states them |
| Help.ArgumentLine | ConsoleFramework/Commands/HelpCommand.cs:73-77 | no contract of its own: one argument line; `ArgumentLineDescription` states its parts |
| Help.ListingLine | ConsoleFramework/Commands/HelpCommand.cs:36 | no contract of its own: aliases joined by ", ", then ": " and the description |
| Help.DescribeLines | ConsoleFramework/Commands/HelpCommand.cs:56-82 | the description is the listing header, then with arguments the header line, one line per argument and the usage line; without arguments nothing follows |
| Help.ArgumentLineDescription | ConsoleFramework/Commands/HelpCommand.cs:73-77 | an argument line is `--name`, `required` or `optional` in parentheses, a colon and the type name, followed by a bar and the description exactly when the description is not blank |
| Help.ListCommands | ConsoleFramework/Commands/HelpCommand.cs:23-37 | no contract of its own: the header, then one line per distinct listed type; `RegistryListedOnce` and `TwiceListedOnce` state what it shows |
| Help.Distinct | ConsoleFramework/Commands/HelpCommand.cs:27 | the result holds the same types with no repeats |
| Help.ListingLines | ConsoleFramework/Commands/HelpCommand.cs:36 | one listing line per type |
| Help.ListedLinesAll | ConsoleFramework/Commands/HelpCommand.cs:29-36 | when every type has its attribute, nothing is skipped |
| Help.ListingAttributed | ConsoleFramework/Commands/HelpCommand.cs:29-34 | every registered type carries an attribute with at least one alias |
| Help.DistinctListing | ConsoleFramework/Commands/HelpCommand.cs:27 | the distinct listing holds exactly the registered types |
| Help.RegistryListedOnce | ConsoleFramework/Commands/HelpCommand.cs:25-37 | listing the commands shows each registered type exactly once, with its aliases and description |
| Help.Matches | ConsoleFramework/Commands/HelpCommand.cs:45-46 | holds exactly the entries whose aliases contain the name verbatim; `MatchesCount` and `MatchesAppend` state that an entry listed twice matches twice and that listing order is kept |
| Help.MatchesAppend | ConsoleFramework/Commands/HelpCommand.cs:45-46 | the matches in two listings one after the other are the matches in each, in that order |
| Help.MatchesCount | ConsoleFramework/Commands/HelpCommand.cs:45-46 | an entry occurs among the matches as often as in the listing when its aliases contain the name, and not at all otherwise |
| Help.MatchesRepeated | ConsoleFramework/Commands/HelpCommand.cs:45-46 | a type listed k times matches k times when the name is one of its aliases, and not at all otherwise |
| Help.MatchesAfterRegistration | ConsoleFramework/Commands/HelpCommand.cs:45-46 | after a registration, the matches of any name are the old matches followed by the new type once per alias when the name is one of its aliases, and the old matches alone otherwise |
| Help.Evaluate | ConsoleFramework/Commands/HelpCommand.cs:21-54 | no contract of its own: listing for a missing or blank name, else `Single` over the matches; `EvaluateNamed`, `BlankNameLists` and the lemmas after them state its answers |
| Help.EvaluateNamed | ConsoleFramework/Commands/HelpCommand.cs:43-53 | for a non-blank name, exactly one match is described, and no match or several matches give the unknown-command message |
| Help.BlankNameLists | ConsoleFramework/Commands/HelpCommand.cs:23-39 | a missing or blank name lists every registered type once |
| Help.SingleAliasDescribed | ConsoleFramework/Commands/HelpCommand.cs:43-48 | in any consistent registry where no registered type declares the alias verbatim, a newly registered command with one lower-case alias is described when asked for in any casing |
| Help.MultiAliasUnknown | ConsoleFramework/Commands/HelpCommand.cs:45-53 | in any consistent registry, a newly registered command with two or more aliases is in the listing, yet asking for it under a name that lower-cases to one of its aliases prints the unknown-command message |
| Help.RegisteredListed | ConsoleFramework/Commands/HelpCommand.cs:25-37 | a newly registered type with at least one alias is among the distinct listed types |
| Help.TwiceListedOnce | ConsoleFramework/Commands/HelpCommand.cs:25-37 | a type listed twice is shown once |
| Help.TwiceMatchedTwice | ConsoleFramework/Commands/HelpCommand.cs:45-53 | a type present twice matches twice, and `Single` fails |
| Help.MixedCaseAliasUnknown | ConsoleFramework/Commands/HelpCommand.cs:46 | in any consistent registry, registering a command whose every alias holds an upper-case letter makes the registry resolve it under each alias, yet leaves help's answer about every name as it was; in a registry holding only that command, help about it prints the unknown-command message |
| Help.HelpAboutHelpUnknown | ConsoleFramework/Commands/HelpCommand.cs:6 | in a registry holding only `HelpCommand`, the listing holds it twice and shows it once, yet help about `help` or `h` prints the unknown-command message |
| Help.EveryAliasDescribed | ConsoleFramework/Commands/HelpCommand.cs:43-53 | with the target resolved through the alias key, every casing of every alias describes the command |
| Help.UnregisteredUnknown | ConsoleFramework/Commands/HelpCommand.cs:50-53 | with the target resolved through the alias key, any other name prints the unknown-command message |
| Text.Split | ConsoleFramework/CommandFactory.cs:119 | at least one segment and no separator inside any; a single segment exactly when there is no separator; segment 0 runs up to the first separator |
| Text.SplitJoin | ConsoleFramework/CommandFactory.cs:136 | joining the segments with the separator gives the string back |
| Text.JoinSplit | ConsoleFramework/CommandFactory.cs:136 | splitting a join of separator-free parts gives the parts back |
| Text.Trim | ConsoleFramework/CommandFactory.cs:133 | the result starts and ends with no copy of the trimmed character; `TrimIsMiddle` states the rest |
| Text.TrimIsMiddle | ConsoleFramework/CommandFactory.cs:133 | the result is a slice of the input with only the trimmed character before and after it |
| Text.TrimIdempotent | ConsoleFramework/CommandFactory.cs:143 | trimming twice is trimming once |
| Text.TrimSurrounded | ConsoleFramework/CommandFactory.cs:133 | a string whose ends hold no quote, once quoted and trimmed, is itself again |
| Text.ToLower | ConsoleFramework/CommandRegistry.cs:47 | lower-casing keeps the length and maps each character on its own |

## Left out

- The interactive loop, console reading and writing, and sync/async dispatch are I/O; they are not part of this model. Console output is modelled as a list of lines.
- Dependency injection and reflection are replaced by explicit metadata. `ActivatorUtilities.CreateInstance` becomes a fresh `CommandInstance` with no properties written. `PropertyInfo.SetValue` becomes a map update. The model does not check that the value fits the property's type beyond what `HasType` states.
- `double` conversion depends on the culture. A `double` property appears only in help (type name and example value `3.14`). The binders require every slot to have a supported type.
- `Enum.Parse` also accepts numbers and comma-separated member lists. The model accepts only member names, matched ignoring ASCII case.
- Case mapping covers ASCII letters only. Invariant-culture case mapping of other letters is not modelled.
- `CommandName.ToLower()` (ConsoleFramework/Commands/HelpCommand.cs:46) lower-cases under the current culture, while the registry uses `ToLowerInvariant`. Under a Turkish culture, for instance, `I` becomes the dotless `ı`. The model lower-cases both the same way, as the invariant culture does for ASCII letters.
- `arg.StartsWith("--")` (ConsoleFramework/CommandFactory.cs:114, 131 and ConsoleFramework/CommandArgumentInjector.cs:247, 269) compares under the current culture. `Text.StartsWith` is an ordinal prefix test. The two can differ on characters that a culture comparison ignores, such as a leading soft hyphen (U+00AD); such tokens are not modelled.
- Metadata.Message: the texts of the .NET runtime's own exceptions (overflow, invalid cast, `Enum.Parse`, duplicate key, index out of range) are their English messages. A parameter-name suffix that the runtime may append, and other languages, are not modelled.
- Int32 parsing follows invariant-culture integer syntax: optional white space, an optional sign, then digits. Thousands separators, currency and other number styles are not modelled.
- null strings are modelled only where the source produces them: the argument past the end (`Option`) and the help command's unset `CommandName`. A null element inside an args array or a null alias is not modelled.
- A class with several `CommandAttribute`s is not modelled. Registration takes the first; the model has at most one.
- The `attribute == null` check inside the positional binder cannot fail for properties selected by their attribute, so it is not modelled.
- `Names.First()` on an empty alias list throws. This is a precondition of the injector's constructor, `Usage` and `Describe`. The registry never holds such a type.
- The `IBaseCommand` check is the boolean `isCommand` of the metadata.
- `Coercion.IntToString` renders an integer in decimal only; culture-specific number formatting of `Int32.ToString` is not modelled.
- The enumeration order of `GetAllCommandTypes` is modelled as insertion order. That is what a `Dictionary` without removals yields, although .NET does not promise it.
- The generic overload `RegisterCommandType<TCommand>()` only calls `RegisterCommandType(typeof(TCommand))`; it is not modelled separately.
- The UI widgets, the contiguous-process runners and the unit tests are not part of this model.

## Findings

| source | as written | input that shows it | evidently intended | confidence | as-written member | corrected member |
|---|---|---|---|---|---|---|
| ConsoleFramework/Commands/HelpCommand.cs:45-46 | `Single` runs over `GetAllCommandTypes()`, which yields a command once per alias, so a command with two aliases matches twice | `help --c=help` in a registry holding `HelpCommand` (aliases `help`, `h`) prints `Unknown command : 'help'` | help describes a registered command under every alias | not executed | Help.MultiAliasUnknown | Help.EveryAliasDescribed |
| ConsoleFramework/Commands/HelpCommand.cs:46 | the lower-cased query is compared verbatim with the aliases as declared, so an alias with an upper-case letter never matches, although the registry resolves it | a command registered as `Deploy`, then `help --c=Deploy`, prints the unknown-command message | help finds a command under any casing of its alias, like `GetCommandType` does | not executed | Help.MixedCaseAliasUnknown | Help.EveryAliasDescribed |
