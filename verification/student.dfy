/**
 * A student record: an id and a name. The store's `updateStudent`
 * overwrites both fields of a stored record, so they are mutable here.
 */
module Students {
  import opened JavaLang
  import Labels

  class Student {
    var id: JString
    var name: JString

    constructor (id: JString, name: JString)
      ensures GetId() == id && GetName() == name
    {
      this.id := id;
      this.name := name;
    }

    function GetId(): JString
      reads this
    {
      id
    }

    function GetName(): JString
      reads this
    {
      name
    }

    /** "name (id)", or the placeholder when the id or the name is null. */
    function ToString(): (r: string)
      reads this
      ensures r == Labels.Sentinel <==> id.Null? || name.Null?
      ensures id.NonNull? && name.NonNull? ==>
        |r| == |name.value| + |id.value| + 3 && r[..|name.value|] == name.value
    {
      Labels.Label(id, name)
    }
  }

  /** The ids of `ss`, position by position. */
  function IdsOf(ss: seq<Student>): (r: seq<JString>)
    reads ss
    ensures |r| == |ss|
    ensures forall i :: 0 <= i < |ss| ==> r[i] == ss[i].id
  {
    if ss == [] then [] else IdsOf(ss[..|ss| - 1]) + [ss[|ss| - 1].id]
  }
}
