/** Lists of kernel objects by address or number (src/include/book/list.h). */
module Lists {

  ghost predicate NoRepeats(list: seq<nat>) {
    forall i, j :: 0 <= i < j < |list| ==> list[i] != list[j]
  }

  /** The list after ListDel of a. */
  function Without(list: seq<nat>, a: nat): (r: seq<nat>)
    ensures forall x :: x in r <==> x in list && x != a
  {
    if |list| == 0 then []
    else
      var rest := Without(list[1..], a);
      assert list == [list[0]] + list[1..];
      if list[0] == a then rest else [list[0]] + rest
  }

  lemma {:induction false} WithoutRepeats(list: seq<nat>, a: nat)
    requires NoRepeats(list)
    ensures NoRepeats(Without(list, a)) && NoRepeats(Without(list, a) + [a])
  {
    if |list| > 0 {
      var rest := list[1..];
      assert forall i :: 0 <= i < |rest| ==> rest[i] == list[i + 1];
      WithoutRepeats(rest, a);
      var kept := Without(rest, a);
      assert list[0] !in kept;
      assert forall i :: 0 <= i < |kept| ==> kept[i] in kept;
    }
  }

  lemma {:induction false} WithoutAbsent(list: seq<nat>, a: nat)
    requires a !in list
    ensures Without(list, a) == list
  {
    if |list| > 0 {
      WithoutAbsent(list[1..], a);
    }
  }

  lemma Associates<T>(a: seq<T>, b: seq<T>, c: seq<T>)
    ensures (a + b) + c == a + (b + c)
  {
  }
}
