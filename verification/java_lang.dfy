/**
 * The few pieces of Java's semantics that the record store depends on:
 * references that may be null, `String.equals`, and the
 * NullPointerException raised by calling a method on a null reference.
 */
module JavaLang {

  /** A reference that may be null. */
  datatype Nullable<T> = Null | NonNull(value: T)

  /** A `java.lang.String` reference. */
  type JString = Nullable<string>

  /** How a Java call completes: normally with a value, or abruptly by
      throwing NullPointerException (the only exception the core can raise). */
  datatype Completion<T> = Normal(value: T) | NullPointer

  /** `receiver.equals(arg)` on strings: throws when the receiver is null;
      otherwise true exactly when `arg` is a non-null string with the same
      characters (so a null argument never matches). */
  function Equals(receiver: JString, arg: JString): (r: Completion<bool>)
    ensures r.NullPointer? <==> receiver.Null?
    ensures r.Normal? ==> (r.value <==> arg.NonNull? && arg.value == receiver.value)
  {
    if receiver.Null? then NullPointer else Normal(receiver == arg)
  }
}
