/**
 * A course: a code and a name, fixed once constructed. Its constructor and
 * its getters `getCode` / `getName` are the datatype's constructor and
 * destructors.
 */
module Courses {
  import opened JavaLang
  import Labels

  datatype Course = Course(code: JString, name: JString) {

    /** "name (code)", or the placeholder when the code or the name is null. */
    function ToString(): (r: string)
      ensures r == Labels.Sentinel <==> code.Null? || name.Null?
      ensures code.NonNull? && name.NonNull? ==>
        |r| == |name.value| + |code.value| + 3 && r[..|name.value|] == name.value
    {
      Labels.Label(code, name)
    }
  }
}
