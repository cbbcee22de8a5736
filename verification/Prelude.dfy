/** Shared vocabulary: optional values, and the few facts about sequences the other modules need. */
module Prelude {

  datatype Option<+T> = None | Some(value: T)

  newtype Byte = b: int | 0 <= b < 256
  type Bytes = seq<Byte>

  /** The elements of s that satisfy p, in order. Built from the back, because lists here grow at the back. */
  function Filter<T>(p: T -> bool, s: seq<T>): seq<T> {
    if s == [] then []
    else if p(s[|s| - 1]) then Filter(p, s[..|s| - 1]) + [s[|s| - 1]]
    else Filter(p, s[..|s| - 1])
  }

  lemma {:induction false} FilterMembers<T(!new)>(p: T -> bool, s: seq<T>)
    ensures forall x :: x in Filter(p, s) <==> x in s && p(x)
  {
    if s != [] {
      FilterMembers(p, s[..|s| - 1]);
      assert s == s[..|s| - 1] + [s[|s| - 1]];
    }
  }

  lemma FilterSnoc<T>(p: T -> bool, s: seq<T>, x: T)
    ensures Filter(p, s + [x]) == if p(x) then Filter(p, s) + [x] else Filter(p, s)
  {
    assert (s + [x])[..|s|] == s;
  }

  lemma {:induction false} FilterAppend<T>(p: T -> bool, s: seq<T>, t: seq<T>)
    ensures Filter(p, s + t) == Filter(p, s) + Filter(p, t)
  {
    if t == [] {
      assert s + t == s;
    } else {
      FilterAppend(p, s, t[..|t| - 1]);
      assert (s + t)[..|s + t| - 1] == s + t[..|t| - 1];
    }
  }

  /** s, with x at the end if it is gained. */
  function Gain<T>(s: seq<T>, x: T, gained: bool): seq<T> {
    if gained then s + [x] else s
  }

  lemma FilterGain<T>(p: T -> bool, s: seq<T>, x: T, gained: bool)
    ensures Filter(p, Gain(s, x, gained)) == Gain(Filter(p, s), x, gained && p(x))
  {
    FilterSnoc(p, s, x);
  }

  ghost predicate IsSuffix<T>(a: seq<T>, b: seq<T>) {
    |a| <= |b| && b[|b| - |a|..] == a
  }

  lemma SuffixGain<T>(a: seq<T>, b: seq<T>, x: T, inA: bool, inB: bool)
    requires IsSuffix(a, b)
    requires inA ==> inB
    requires inB ==> inA || a == []
    ensures IsSuffix(Gain(a, x, inA), Gain(b, x, inB))
  {
    if inA {
      assert (b + [x])[|b| - |a|..] == b[|b| - |a|..] + [x];
    }
  }

  lemma RepeatedTwice<T>(s: seq<T>, i: nat, j: nat)
    requires i < j < |s| && s[i] == s[j]
    ensures multiset(s)[s[i]] >= 2
  {
    assert s == s[..j] + [s[j]] + s[j + 1..];
    assert s[..j][i] in multiset(s[..j]);
  }

  lemma TwiceRepeated<T>(s: seq<T>, x: T) returns (i: nat, j: nat)
    requires multiset(s)[x] >= 2
    ensures i < j < |s| && s[i] == x == s[j]
  {
    assert x in multiset(s);
    i :| i < |s| && s[i] == x;
    var rest := s[..i] + s[i + 1..];
    assert s == s[..i] + [s[i]] + s[i + 1..];
    assert multiset(s) == multiset(rest) + multiset{x};
    assert x in multiset(rest);
    j :| j < |rest| && rest[j] == x;
    if j < i {
      i, j := j, i;
    } else {
      j := j + 1;
    }
  }

  function Sum(s: seq<nat>): nat {
    if s == [] then 0 else Sum(s[..|s| - 1]) + s[|s| - 1]
  }

  lemma SumSnoc(s: seq<nat>, x: nat)
    ensures Sum(s + [x]) == Sum(s) + x
  {
    assert (s + [x])[..|s|] == s;
  }
}
