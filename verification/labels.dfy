/**
 * The display text shared by `Student.toString` and `Course.toString`:
 * "name (key)", or the placeholder "(Select)" when either field is null.
 */
module Labels {
  import opened JavaLang

  /** The placeholder shown by selection drop-downs. */
  const Sentinel: string := "(Select)"

  /** The label of a record whose key (student id or course code) is `key`.
      The placeholder appears exactly when a field is null; otherwise the
      label is the name, a space and the key in parentheses. */
  function Label(key: JString, name: JString): (r: string)
    ensures r == Sentinel <==> key.Null? || name.Null?
    ensures key.NonNull? && name.NonNull? ==>
      var n, k := name.value, key.value;
      && |r| == |n| + |k| + 3
      && r[..|n|] == n
      && r[|n|..|n| + 2] == " ("
      && r[|n| + 2..|r| - 1] == k
      && r[|r| - 1] == ')'
  {
    if key.Null? || name.Null? then Sentinel
    else
      var r := name.value + " (" + key.value + ")";
      assert r[|name.value|] == ' ';
      assert forall i :: 0 <= i < |Sentinel| ==> Sentinel[i] != ' ';
      r
  }

  /** `s` contains the two characters " (" somewhere. */
  predicate HasOpening(s: string)
  {
    exists i :: 0 <= i < |s| - 1 && s[i] == ' ' && s[i + 1] == '('
  }

  /** A label built from two non-null fields always contains " (", which
      the placeholder does not, so the two can never be confused. */
  lemma {:induction false} LabelOfRecordIsNotPlaceholder(key: string, name: string)
    ensures HasOpening(Label(NonNull(key), NonNull(name)))
    ensures !HasOpening(Sentinel)
  {
    var r := Label(NonNull(key), NonNull(name));
    assert r[|name|..|name| + 2] == " (";
    assert r[|name|] == ' ' && r[|name| + 1] == '(';
  }
}
