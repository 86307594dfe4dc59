/** The metadata that reflection supplies in the original program, written out
    as values: the `CommandAttribute` of a command class, the
    `ArgumentAttribute` and declared type of each argument property, the
    values a property can hold, and the errors command resolution raises. */
module Metadata {
  import opened Text

  datatype Option<T> = None | Some(value: T)

  /** The value types an argument property can be declared with; an
      enumeration has its `Type.Name`, its `Type.FullName` and its members. */
  datatype ValueType =
    | Int32
    | Double
    | Boolean
    | Enumeration(enumName: string, enumFullName: string, members: seq<string>)

  /** The declared type of an argument property. */
  datatype ArgType =
    | StringType              // System.String, a reference type
    | Plain(base: ValueType)  // a non-nullable value type
    | Nullable(base: ValueType)

  /** What a property holds. An enumeration value is its ordinal: members are
      numbered 0, 1, 2, ... in declaration order. A `Nullable<T>` holding a
      value boxes to that value, so it needs no constructor of its own. */
  datatype Value = Null | Str(s: string) | Int(i: int) | Bool(b: bool) | Enum(ordinal: nat)

  /** One argument property: the C# property name, and its `ArgumentAttribute`
      (Name, Description, Required) with the property's type. */
  datatype Slot = Slot(property: string, name: string, description: string, required: bool, kind: ArgType)

  /** `CommandAttribute`: the aliases and the description of a command. */
  datatype CommandAttribute = CommandAttribute(names: seq<string>, description: string)

  /** A command class as reflection sees it: its full name, its first
      `CommandAttribute` if any, whether it implements `IBaseCommand`, and its
      argument properties in declaration order. */
  datatype CommandType = CommandType(
    fullName: string,
    attribute: Option<CommandAttribute>,
    isCommand: bool,
    arguments: seq<Slot>)

  /** Conversion failures that are not a `FormatException`, so no handler in
      the binders catches them. */
  datatype Failure =
    | Overflow                        // OverflowException from Int32 parsing
    | InvalidCast(target: string)     // InvalidCastException from Convert.ChangeType
    | EnumValueEmpty                  // ArgumentException from Enum.Parse
    | EnumValueNotFound(value: string)  // ArgumentException from Enum.Parse

  datatype Error =
    | MissingArgument(argument: string, command: string)
    | UnexpectedArgument(argument: string, command: string, expected: string)
    | InvalidFormat(value: string, argument: string)  // CliRuntimeException
    | ConversionFailed(failure: Failure)
    | DuplicateKey(key: string)                       // Dictionary.Add
    | UnknownCommand(name: string)
    | MissingCommandAttribute(typeName: string)
    | NotACommand(typeName: string)
    | BlankAlias(typeName: string)
    | NoCommandName                                   // args[0] of an empty array

  datatype Result<T> = Ok(value: T) | Err(error: Error)

  datatype Outcome = Pass | Fail(error: Error)

  /** The message of the exception each error stands for. */
  function Message(e: Error): string {
    match e
    case MissingArgument(a, c) => "Missing required argument '" + a + "' for command '" + c + "'"
    case UnexpectedArgument(a, c, p) => "Unexpected argument '" + a + "' for command '" + c + "', expected '" + p + "'"
    case InvalidFormat(v, a) => "Failed to set property value: Invalid format for argument '" + v + "' of argument '" + a + "'."
    case ConversionFailed(f) =>
      (match f
       case Overflow => "Value was either too large or too small for an Int32."
       case InvalidCast(n) => "Invalid cast from 'System.String' to '" + n + "'."
       case EnumValueEmpty => "Must specify valid information for parsing in the string."
       case EnumValueNotFound(v) => "Requested value '" + v + "' was not found.")
    case DuplicateKey(k) => "An item with the same key has already been added. Key: " + k
    case UnknownCommand(n) => "Unknown command '" + n + "'"
    case MissingCommandAttribute(t) => "Type " + t + " must have a CommandAttribute"
    case NotACommand(t) => "Type " + t + " must implement IBaseCommand"
    case BlankAlias(t) => "CommandAttribute of type " + t + " must have non-empty name(s) specified"
    case NoCommandName => "Index was outside the bounds of the array."
  }

  /** `Type.Name` of a property type. */
  function TypeName(t: ArgType): string {
    match t
    case StringType => "String"
    case Nullable(_) => "Nullable`1"
    case Plain(b) =>
      match b
      case Int32 => "Int32"
      case Double => "Double"
      case Boolean => "Boolean"
      case Enumeration(n, _, _) => n
  }

  /** Types whose conversion is modelled: everything but `double`. */
  predicate Supported(t: ArgType) {
    t.StringType? || !t.base.Double?
  }

  predicate SupportedSlots(slots: seq<Slot>) {
    forall i :: 0 <= i < |slots| ==> Supported(slots[i].kind)
  }

  /** Property names are unique within a class. */
  predicate DistinctProperties(slots: seq<Slot>) {
    forall i, j :: 0 <= i < j < |slots| ==> slots[i].property != slots[j].property
  }

  /** The property names of `slots`. */
  function Properties(slots: seq<Slot>): set<string> {
    set i | 0 <= i < |slots| :: slots[i].property
  }

  lemma PropertiesSnoc(slots: seq<Slot>)
    requires |slots| > 0
    ensures Properties(slots) == Properties(slots[..|slots| - 1]) + {slots[|slots| - 1].property}
  {
    var n := |slots| - 1;
    forall p | p in Properties(slots) ensures p in Properties(slots[..n]) + {slots[n].property} {
      var i :| 0 <= i < |slots| && slots[i].property == p;
      if i < n { assert slots[..n][i] == slots[i]; }
    }
    forall p | p in Properties(slots[..n]) ensures p in Properties(slots) {
      var i :| 0 <= i < n && slots[..n][i].property == p;
      assert slots[i] == slots[..n][i];
    }
  }

  lemma PropertiesCons(slots: seq<Slot>)
    requires |slots| > 0
    ensures Properties(slots) == {slots[0].property} + Properties(slots[1..])
  {
    forall p | p in Properties(slots) ensures p in {slots[0].property} + Properties(slots[1..]) {
      var i :| 0 <= i < |slots| && slots[i].property == p;
      if i > 0 { assert slots[1..][i - 1] == slots[i]; }
    }
    forall p | p in Properties(slots[1..]) ensures p in Properties(slots) {
      var i :| 0 <= i < |slots| - 1 && slots[1..][i].property == p;
      assert slots[i + 1] == slots[1..][i];
    }
  }

  /** A command object: its argument properties, by property name. A freshly
      created command has had none of them written. */
  class CommandInstance {
    var properties: map<string, Value>

    constructor ()
      ensures properties == map[]
    {
      properties := map[];
    }
  }

  /** The sample command shipped with the startup project: aliases
      `example`, a required string `message` and an optional int `optional`. */
  function ExampleCommandType(): CommandType {
    CommandType(
      "ExampleCommand",
      Some(CommandAttribute(["example"], "An example command")),
      true,
      [ Slot("Message", "message", "", true, StringType),
        Slot("Optional", "optional", "some optional value for things", false, Plain(Int32)) ])
  }
}
