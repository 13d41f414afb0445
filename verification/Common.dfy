/** Shared vocabulary: optional values, and sequences. */
module Common {
  datatype Option<+T> = None | Some(value: T)

  function Min(a: nat, b: nat): nat {
    if a <= b then a else b
  }

  /** Sequences one after the other. */
  function Joined<T>(ss: seq<seq<T>>): seq<T> {
    if ss == [] then [] else ss[0] + Joined(ss[1..])
  }

  lemma Regroup<T>(a: seq<T>, b: seq<T>, c: seq<T>)
    ensures (a + b) + c == a + (b + c)
  {
  }

  /** `part` stands in s at i. */
  predicate StandsAt<T(==)>(s: seq<T>, i: nat, part: seq<T>) {
    i + |part| <= |s| && s[i..i + |part|] == part
  }

  lemma StandsSplit<T>(s: seq<T>, i: nat, a: seq<T>, b: seq<T>)
    requires StandsAt(s, i, a + b)
    ensures StandsAt(s, i, a) && StandsAt(s, i + |a|, b)
  {
    assert s[i..i + |a|] == (a + b)[..|a|];
    assert s[i + |a|..i + |a| + |b|] == (a + b)[|a|..];
  }

  /** s without its first x. */
  function Without<T(==)>(s: seq<T>, x: T): (t: seq<T>)
    ensures forall y :: y in t ==> y in s
    ensures forall y :: y in s && y != x ==> y in t
    ensures |t| <= |s|
  {
    if s == [] then [] else if s[0] == x then s[1..] else [s[0]] + Without(s[1..], x)
  }

  /** Taking it out where it stands. */
  lemma {:induction false} WithoutAt<T>(s: seq<T>, x: T, i: nat)
    requires i <= |s| && x !in s[..i] && (i < |s| ==> s[i] == x)
    ensures Without(s, x) == if i < |s| then s[..i] + s[i + 1..] else s
  {
    if i > 0 {
      assert s[0] in s[..i];
      assert s[1..][..i - 1] == s[..i][1..];
      WithoutAt(s[1..], x, i - 1);
      if i < |s| {
        assert [s[0]] + (s[1..][..i - 1] + s[1..][i..]) == s[..i] + s[i + 1..];
      }
    }
  }
}
