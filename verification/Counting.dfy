/** Counting the elements of a sequence that satisfy a predicate. */
module Counting {
  function Tally<T>(s: seq<T>, f: T -> bool): nat {
    if s == [] then 0
    else Tally(s[..|s| - 1], f) + (if f(s[|s| - 1]) then 1 else 0)
  }

  lemma {:induction false} TallyBounds<T>(s: seq<T>, f: T -> bool)
    ensures Tally(s, f) <= |s|
    ensures Tally(s, f) == |s| <==> forall i :: 0 <= i < |s| ==> f(s[i])
    ensures Tally(s, f) == 0 <==> forall i :: 0 <= i < |s| ==> !f(s[i])
  {
    if s != [] {
      var init := s[..|s| - 1];
      TallyBounds(init, f);
      assert forall i :: 0 <= i < |init| ==> init[i] == s[i];
    }
  }

  lemma {:induction false} TallyUpdate<T>(s: seq<T>, f: T -> bool, i: nat, v: T)
    requires i < |s|
    ensures Tally(s[i := v], f) == Tally(s, f) - (if f(s[i]) then 1 else 0) + (if f(v) then 1 else 0)
  {
    var last := |s| - 1;
    var after := s[i := v];
    if i == last {
      assert after[..last] == s[..last];
    } else {
      TallyUpdate(s[..last], f, i, v);
      assert after[..last] == s[..last][i := v];
    }
  }
}
