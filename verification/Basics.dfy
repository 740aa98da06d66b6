/** Notions that several modules share. */
module Basics {

  datatype Option<T> = None | Some(value: T)

  type Byte = b: nat | b < 256

  function Sum(s: seq<nat>): nat {
    if s == [] then 0 else Sum(s[..|s| - 1]) + s[|s| - 1]
  }

  lemma {:induction false} SumAppend(s: seq<nat>, t: seq<nat>)
    ensures Sum(s + t) == Sum(s) + Sum(t)
    decreases |t|
  {
    if t == [] {
      assert s + t == s;
    } else {
      SumAppend(s, t[..|t| - 1]);
      assert (s + t)[..|s + t| - 1] == s + t[..|t| - 1];
    }
  }

  lemma {:induction false} SumOne(s: seq<nat>)
    requires |s| == 1
    ensures Sum(s) == s[0]
  {
    assert s[..0] == [];
  }

  lemma {:induction false} SumSplit(s: seq<nat>, i: nat)
    requires i <= |s|
    ensures Sum(s) == Sum(s[..i]) + Sum(s[i..])
    ensures i < |s| ==> Sum(s[..i + 1]) == Sum(s[..i]) + s[i] && Sum(s[i..]) == s[i] + Sum(s[i + 1..])
  {
    assert s == s[..i] + s[i..];
    SumAppend(s[..i], s[i..]);
    if i < |s| {
      assert s[..i + 1][..i] == s[..i];
      assert s[i..] == [s[i]] + s[i + 1..];
      SumAppend([s[i]], s[i + 1..]);
      assert Sum([s[i]]) == s[i] by {
        assert [s[i]][..0] == [];
      }
    }
  }
}
