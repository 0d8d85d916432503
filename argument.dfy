/**
 * The argument validators (TernarySearchTree/Argument.cs): each returns normally or throws. A C#
 * reference that may be null is an `Option`.
 */
module Argument {
  import opened Wrappers

  const EmptyArgument := "Argument cannot be an empty string."

  /** `IsNotNull`: throws `ArgumentNullException` naming the argument exactly when it is null. */
  function IsNotNull<T>(argument: Option<T>, argumentName: string): (r: Outcome)
    ensures r.Fail? <==> argument.None?
    ensures r.Fail? ==> r.error == ArgumentNullException(argumentName)
  {
    if argument.None? then Fail(ArgumentNullException(argumentName)) else Pass
  }

  /**
   * `IsNotEmpty` as written: its test is `argument == null`, so it throws for a null argument and lets
   * the empty string through.
   */
  function IsNotEmpty(argument: Option<string>, argumentName: string): (r: Outcome)
    ensures r.Fail? <==> argument.None?
    ensures r.Fail? ==> r.error == ArgumentException(EmptyArgument, argumentName)
  {
    if argument.None? then Fail(ArgumentException(EmptyArgument, argumentName)) else Pass
  }

  /**
   * `IsNotNullAndNotEmpty`: `IsNotNull`, then `IsNotEmpty`. The second never throws once the first has
   * passed, so only a null argument is refused, always with `ArgumentNullException`.
   */
  function IsNotNullAndNotEmpty(argument: Option<string>, argumentName: string): (r: Outcome)
    ensures r.Fail? <==> argument.None?
    ensures r.Fail? ==> r.error == ArgumentNullException(argumentName)
  {
    match IsNotNull(argument, argumentName)
    case Fail(e) => Fail(e)
    case Pass => IsNotEmpty(argument, argumentName)
  }

  /** `IsWithinRange`: throws `ArgumentOutOfRangeException` exactly when the condition is false. */
  function IsWithinRange(expression: bool, argumentName: string): (r: Outcome)
    ensures r.Fail? <==> !expression
    ensures r.Fail? ==> r.error == ArgumentOutOfRangeException(argumentName)
  {
    if expression == false then Fail(ArgumentOutOfRangeException(argumentName)) else Pass
  }

  /** The empty string passes the combined check, and the empty-string error can never be raised. */
  lemma EmptyPasses(argumentName: string)
    ensures IsNotNullAndNotEmpty(Some(""), argumentName) == Pass
    ensures forall a: Option<string> :: IsNotNullAndNotEmpty(a, argumentName) != Fail(ArgumentException(EmptyArgument, argumentName))
  {
  }

  // ---------------------------------------------------------------------------------------------------
  // As the message describes it

  /** `IsNotEmpty` testing the length, as its message says: only the empty string is refused. */
  function IsNotEmptyFixed(argument: string, argumentName: string): (r: Outcome)
    ensures r.Fail? <==> |argument| == 0
  {
    if |argument| == 0 then Fail(ArgumentException(EmptyArgument, argumentName)) else Pass
  }

  /** The combined check with the corrected `IsNotEmpty`. */
  function IsNotNullAndNotEmptyFixed(argument: Option<string>, argumentName: string): Outcome {
    match IsNotNull(argument, argumentName)
    case Fail(e) => Fail(e)
    case Pass => IsNotEmptyFixed(argument.value, argumentName)
  }

  /** The corrected check refuses null with `ArgumentNullException`, empty with `ArgumentException`, nothing else. */
  lemma FixedRefusesNullAndEmpty(argument: Option<string>, argumentName: string)
    ensures IsNotNullAndNotEmptyFixed(argument, argumentName) ==
              if argument.None? then Fail(ArgumentNullException(argumentName))
              else if |argument.value| == 0 then Fail(ArgumentException(EmptyArgument, argumentName))
              else Pass
    ensures argument.Some? && |argument.value| > 0 ==>
              IsNotNullAndNotEmptyFixed(argument, argumentName) == IsNotNullAndNotEmpty(argument, argumentName)
  {
  }
}
