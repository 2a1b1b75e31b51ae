/**
  IP-hash selection: the client identity's character codes are summed and
  the sum, modulo the number of up targets, indexes the up targets in
  registry order.
 */
module Selector {
  import opened Wrappers
  import opened Registry

  /**
    The sum of the UTF-16 code units `charCodeAt` reports for one Unicode
    scalar value: the value itself in the basic plane, the high and the low
    surrogate of its pair above it.
   */
  function CharCode(c: char): nat
  {
    var v := c as int;
    if v < 0x1_0000 then v
    else (0xD800 + (v - 0x1_0000) / 0x400) + (0xDC00 + (v - 0x1_0000) % 0x400)
  }

  /** The sum of the character codes of `ip`, accumulated left to right. */
  function Hash(ip: string): nat
  {
    if |ip| == 0 then 0 else Hash(ip[..|ip| - 1]) + CharCode(ip[|ip| - 1])
  }

  /** The hashing loop: `hash` accumulates one character code per iteration. */
  method ComputeHash(ip: string) returns (hash: nat)
    ensures hash == Hash(ip)
  {
    hash := 0;
    var i := 0;
    while i < |ip|
      invariant 0 <= i <= |ip|
      invariant hash == Hash(ip[..i])
    {
      assert ip[..i + 1][..i] == ip[..i];
      hash := hash + CharCode(ip[i]);
      i := i + 1;
    }
    assert ip[..i] == ip;
  }

  /** The hash of a concatenation is the sum of the hashes of its parts. */
  lemma {:induction false} HashAppend(a: string, b: string)
    ensures Hash(a + b) == Hash(a) + Hash(b)
    decreases |b|
  {
    if |b| == 0 {
      assert a + b == a;
    } else {
      var b' := b[..|b| - 1];
      assert (a + b)[..|a + b| - 1] == a + b';
      HashAppend(a, b');
    }
  }

  /** Reordering the characters of an identity does not change its hash. */
  lemma {:induction false} HashPermutation(a: string, b: string)
    requires multiset(a) == multiset(b)
    ensures Hash(a) == Hash(b)
    decreases |a|
  {
    if |a| == 0 {
      assert |multiset(b)| == 0;
    } else {
      var c := a[|a| - 1];
      var a' := a[..|a| - 1];
      assert a == a' + [c];
      assert c in multiset(b);
      var j :| 0 <= j < |b| && b[j] == c;
      var b' := b[..j] + b[j + 1..];
      assert b == b[..j] + [c] + b[j + 1..];
      calc {
        multiset(b);
        multiset(b[..j] + [c] + b[j + 1..]);
        multiset(b[..j]) + multiset{c} + multiset(b[j + 1..]);
        multiset(b') + multiset{c};
      }
      assert multiset(a) == multiset(a') + multiset{c};
      assert multiset(a') == multiset(a) - multiset{c};
      assert multiset(b') == multiset(b) - multiset{c};
      HashPermutation(a', b');
      assert [c][..0] == [];
      HashAppend(a', [c]);
      HashAppend(b[..j], [c]);
      HashAppend(b[..j] + [c], b[j + 1..]);
      HashAppend(b[..j], b[j + 1..]);
    }
  }

  predicate StrictlyIncreasing(s: seq<nat>)
  {
    forall k, l :: 0 <= k < l < |s| ==> s[k] < s[l]
  }

  /**
    The positions, from `from` on and in registry order, of the targets that
    are up and whose URL is not excluded.
   */
  function EligibleFrom(targets: seq<Target>, excluded: set<string>, from: nat): (r: seq<nat>)
    requires from <= |targets|
    ensures forall k :: 0 <= k < |r| ==> from <= r[k] && Eligible(targets, excluded, r[k])
    ensures forall i: nat :: from <= i && Eligible(targets, excluded, i) ==> i in r
    ensures StrictlyIncreasing(r)
    decreases |targets| - from
  {
    if from == |targets| then []
    else if Eligible(targets, excluded, from) then [from] + EligibleFrom(targets, excluded, from + 1)
    else EligibleFrom(targets, excluded, from + 1)
  }

  /** The up targets whose URL is not excluded, in registry order. */
  function Candidates(targets: seq<Target>, excluded: set<string>): seq<nat>
  {
    EligibleFrom(targets, excluded, 0)
  }

  /** The `targets.filter(status === "up")` of the selector, as positions. */
  function UpIndices(targets: seq<Target>): seq<nat>
  {
    Candidates(targets, {})
  }

  /** Indexes the candidate list with the identity's hash modulo its length. */
  function PickByHash(ip: string, candidates: seq<nat>): (r: Option<nat>)
    ensures r.None? <==> |candidates| == 0
    ensures r.Some? ==> r.value in candidates
  {
    if |candidates| == 0 then None else Some(candidates[Hash(ip) % |candidates|])
  }

  /**
    Picks a target for `ip` among the up targets; `None` stands for the
    source's `null`. The result is a position in the registry.
   */
  function SelectTargetByIPHash(targets: seq<Target>, ip: string): (r: Option<nat>)
    ensures r.None? <==> NoneUp(targets)
    ensures r.Some? ==> IsUp(targets, r.value)
  {
    var up := UpIndices(targets);
    assert forall i :: 0 <= i < |targets| && targets[i].status == Up ==> Eligible(targets, {}, i) && i in up;
    PickByHash(ip, up)
  }

  /** The head of a strictly increasing sequence is below every other element. */
  lemma HeadIsLeast(a: seq<nat>, x: nat)
    requires StrictlyIncreasing(a) && x in a
    ensures a[0] <= x
  {
    var k :| 0 <= k < |a| && a[k] == x;
    if k > 0 {
      assert a[0] < a[k];
    }
  }

  /** The tail of a strictly increasing sequence holds all its elements but the head. */
  lemma TailMembers(a: seq<nat>, x: nat)
    requires StrictlyIncreasing(a) && |a| > 0
    ensures x in a[1..] <==> x in a && x != a[0]
  {
    if x in a[1..] {
      var k :| 0 <= k < |a| - 1 && a[1..][k] == x;
      assert a[k + 1] == x;
      assert a[0] < a[k + 1];
    }
    if x in a && x != a[0] {
      var k :| 0 <= k < |a| && a[k] == x;
      assert k > 0;
      assert a[1..][k - 1] == x;
    }
  }

  /** Two strictly increasing sequences with the same elements are equal. */
  lemma {:induction false} IncreasingEnumerationUnique(a: seq<nat>, b: seq<nat>)
    requires StrictlyIncreasing(a) && StrictlyIncreasing(b)
    requires forall x :: x in a <==> x in b
    ensures a == b
    decreases |a|
  {
    assert |b| > 0 ==> b[0] in a;
    assert |a| > 0 ==> a[0] in b;
    if |a| == 0 || |b| == 0 {
    } else {
      assert a[0] in b && b[0] in a;
      HeadIsLeast(a, b[0]);
      HeadIsLeast(b, a[0]);
      forall x
        ensures x in a[1..] <==> x in b[1..]
      {
        TailMembers(a, x);
        TailMembers(b, x);
      }
      assert StrictlyIncreasing(a[1..]) && StrictlyIncreasing(b[1..]);
      IncreasingEnumerationUnique(a[1..], b[1..]);
      assert a == [a[0]] + a[1..];
      assert b == [b[0]] + b[1..];
    }
  }

  /**
    Selection depends only on the identity and on which positions are up:
    URLs, weights, and the difference between unknown and down do not
    matter, and the same identity over the same up list yields the same
    target.
   */
  lemma SelectDependsOnlyOnUpPositions(t1: seq<Target>, t2: seq<Target>, ip: string)
    requires forall i: nat :: IsUp(t1, i) <==> IsUp(t2, i)
    ensures SelectTargetByIPHash(t1, ip) == SelectTargetByIPHash(t2, ip)
  {
    var a := UpIndices(t1);
    var b := UpIndices(t2);
    forall x
      ensures x in a <==> x in b
    {
      if x in a {
        assert Eligible(t1, {}, x);
        assert Eligible(t2, {}, x);
      }
      if x in b {
        assert Eligible(t2, {}, x);
        assert Eligible(t1, {}, x);
      }
    }
    IncreasingEnumerationUnique(a, b);
  }

  /** Identities that are anagrams of each other are sent to the same target. */
  lemma SelectPermutationInvariant(targets: seq<Target>, a: string, b: string)
    requires multiset(a) == multiset(b)
    ensures SelectTargetByIPHash(targets, a) == SelectTargetByIPHash(targets, b)
  {
    HashPermutation(a, b);
  }
}
