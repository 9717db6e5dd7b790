/**
 * The parts of .NET reflection the registration phase reads, as plain data:
 * assemblies, the types they define and the interfaces those types implement,
 * plus the two `string` queries the selector uses.
 */
module Reflection {
  import opened Wrappers

  /** The identity of a runtime type, as its full name. */
  type TypeName = string

  /**
   * An interface a type implements, as `Type.GetInterfaces` reports it.
   * `genericDefinition` is `Some(d)` exactly when the interface is a generic
   * type (`IsGenericType`); `d` is then `GetGenericTypeDefinition()`.
   */
  datatype InterfaceType = InterfaceType(name: TypeName, genericDefinition: Option<TypeName>)

  /**
   * A type defined in an assembly, as `Assembly.GetTypes` reports it.
   * `isAbstract` is carried only to show that the scan never reads it.
   */
  datatype TypeInfo = TypeInfo(
    name: TypeName,
    isClass: bool,
    isInterface: bool,
    isAbstract: bool,
    interfaces: seq<InterfaceType>)

  /** A loaded assembly: its `FullName` (possibly null), `IsDynamic`, and its types in `GetTypes` order. */
  datatype Assembly = Assembly(fullName: Option<string>, isDynamic: bool, types: seq<TypeInfo>)

  /** `Type.IsGenericType`. */
  predicate IsGenericType(i: InterfaceType) {
    i.genericDefinition.Some?
  }

  /** `Type.GetGenericTypeDefinition()`, which throws for a type that is not generic. */
  function GetGenericTypeDefinition(i: InterfaceType): TypeName
    requires IsGenericType(i)
  {
    i.genericDefinition.value
  }

  /** `Char.IsWhiteSpace`: the Unicode space, line and paragraph separators, and the controls U+0009 to U+000D and U+0085. */
  predicate IsWhiteSpace(c: char) {
    || ('\U{0009}' <= c <= '\U{000D}')
    || c == ' '
    || c == '\U{0085}'
    || c == '\U{00A0}'
    || c == '\U{1680}'
    || ('\U{2000}' <= c <= '\U{200A}')
    || c == '\U{2028}'
    || c == '\U{2029}'
    || c == '\U{202F}'
    || c == '\U{205F}'
    || c == '\U{3000}'
  }

  /** `string.IsNullOrWhiteSpace`: null, empty, or white space only. */
  predicate IsNullOrWhiteSpace(s: Option<string>) {
    s.None? || forall k :: 0 <= k < |s.value| ==> IsWhiteSpace(s.value[k])
  }

  /** `string.StartsWith(string)`, taken as an ordinal prefix test. */
  predicate StartsWith(s: string, prefix: string) {
    prefix <= s
  }
}
