/** Types and list notions shared by every module. */
module Prelude {
  datatype Option<+T> = None | Some(value: T)

  type UserId = int

  /** A group belongs to a term of a center. */
  datatype Group = Group(center: nat, term: nat)

  predicate Distinct<T(==)>(s: seq<T>) {
    forall i, j :: 0 <= i < j < |s| ==> s[i] != s[j]
  }

  function TotalLength<T>(s: seq<seq<T>>): nat {
    if s == [] then 0 else TotalLength(s[..|s| - 1]) + |s[|s| - 1]|
  }

  lemma AppendLength<T>(s: seq<seq<T>>, t: seq<T>)
    ensures TotalLength(s + [t]) == TotalLength(s) + |t|
  {
    assert (s + [t])[..|s|] == s;
  }

  lemma {:induction false} TotalIsZero<T>(s: seq<seq<T>>)
    ensures TotalLength(s) == 0 <==> forall i :: 0 <= i < |s| ==> s[i] == []
    decreases |s|
  {
    if s != [] {
      TotalIsZero(s[..|s| - 1]);
      assert forall i :: 0 <= i < |s| - 1 ==> s[..|s| - 1][i] == s[i];
    }
  }
}
