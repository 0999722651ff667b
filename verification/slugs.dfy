/**
 This module models the slug candidates that `Blog.save` tries, and the
 collision-avoidance loop that picks the first free one.

 A candidate is the base slug itself (index 0) or the base slug followed by
 a hyphen and the decimal rendering of a positive counter (index k >= 1).
 */
module Slugs {

  /** True iff `c` is one of the ASCII digits '0'..'9'. */
  predicate IsDigit(c: char) {
    '0' <= c <= '9'
  }

  /** True iff every character of `s` is an ASCII digit. */
  predicate AllDigits(s: string) {
    forall i :: 0 <= i < |s| ==> IsDigit(s[i])
  }

  function DigitChar(d: nat): (c: char)
    requires d < 10
    ensures IsDigit(c)
  {
    (('0' as int) + d) as char
  }

  function DigitValue(c: char): (d: nat)
    requires IsDigit(c)
    ensures d < 10
  {
    (c as int) - ('0' as int)
  }

  /**
   The decimal rendering of a natural number, as Python's `str` (and so an
   f-string placeholder) writes a non-negative int: at least one digit, and
   no leading zero unless the number is zero itself.
   */
  function NatToString(n: nat): (s: string)
    ensures |s| >= 1
    ensures AllDigits(s)
    ensures s[0] == '0' <==> n == 0
    decreases n
  {
    if n < 10 then [DigitChar(n)]
    else NatToString(n / 10) + [DigitChar(n % 10)]
  }

  /** Reads a string of decimal digits back as a natural number. */
  function DigitsToNat(s: string): nat
    requires AllDigits(s)
    decreases |s|
  {
    if |s| == 0 then 0
    else DigitsToNat(s[..|s| - 1]) * 10 + DigitValue(s[|s| - 1])
  }

  /** Reading back the decimal rendering of `n` gives `n`. */
  lemma {:induction false} NatToStringRoundTrip(n: nat)
    ensures DigitsToNat(NatToString(n)) == n
    decreases n
  {
    var s := NatToString(n);
    if n >= 10 {
      NatToStringRoundTrip(n / 10);
      assert s[..|s| - 1] == NatToString(n / 10);
    }
  }

  /** Distinct numbers have distinct decimal renderings. */
  lemma NatToStringInjective(a: nat, b: nat)
    ensures NatToString(a) == NatToString(b) ==> a == b
  {
    NatToStringRoundTrip(a);
    NatToStringRoundTrip(b);
  }

  /**
   The candidate slug with index `k`: the base slug when `k` is 0, and
   `base-k` (Python's `f"{base_slug}-{counter}"`) otherwise.
   */
  function Candidate(base: string, k: nat): (s: string)
    ensures |base| <= |s| && s[..|base|] == base
    ensures k == 0 <==> |s| == |base|
    ensures k > 0 ==> s[|base|] == '-' && s[|base| + 1..] == NatToString(k)
  {
    if k == 0 then base else base + "-" + NatToString(k)
  }

  /** Different indices give different candidates for the same base slug. */
  lemma CandidateInjective(base: string, i: nat, j: nat)
    ensures Candidate(base, i) == Candidate(base, j) ==> i == j
  {
    if Candidate(base, i) == Candidate(base, j) && i > 0 && j > 0 {
      NatToStringInjective(i, j);
    }
  }

  /** The first `n` candidates, as a set. */
  function CandidatesBelow(base: string, n: nat): (cs: set<string>)
    ensures forall j :: 0 <= j < n ==> Candidate(base, j) in cs
    decreases n
  {
    if n == 0 then {} else CandidatesBelow(base, n - 1) + {Candidate(base, n - 1)}
  }

  /** A candidate at or beyond index `n` is not among the first `n`. */
  lemma {:induction false} CandidateNotBelow(base: string, n: nat, m: nat)
    requires n <= m
    ensures Candidate(base, m) !in CandidatesBelow(base, n)
    decreases n
  {
    if n > 0 {
      CandidateNotBelow(base, n - 1, m);
      CandidateInjective(base, n - 1, m);
    }
  }

  /** The first `n` candidates are `n` distinct strings. */
  lemma {:induction false} CandidatesBelowCount(base: string, n: nat)
    ensures |CandidatesBelow(base, n)| == n
    decreases n
  {
    if n > 0 {
      CandidatesBelowCount(base, n - 1);
      CandidateNotBelow(base, n - 1, n - 1);
    }
  }

  /** True iff the first `n` candidates are all taken. */
  predicate TakenBelow(base: string, existing: set<string>, n: nat) {
    forall j :: 0 <= j < n ==> Candidate(base, j) in existing
  }

  /**
   If the first `n` candidates are all taken, the set of existing slugs has
   at least `n` members: the counter can never run past the table's size.
   */
  lemma {:induction false} TakenBound(base: string, existing: set<string>, n: nat)
    requires TakenBelow(base, existing, n)
    ensures n <= |existing|
  {
    var below := CandidatesBelow(base, n);
    CandidatesBelowCount(base, n);
    SubsetBelow(base, existing, n);
    assert existing == below + (existing - below);
  }

  lemma {:induction false} SubsetBelow(base: string, existing: set<string>, n: nat)
    requires TakenBelow(base, existing, n)
    ensures CandidatesBelow(base, n) <= existing
    decreases n
  {
    if n > 0 {
      SubsetBelow(base, existing, n - 1);
    }
  }

  /**
   Index `k` is the least free one: candidate `k` is not an existing slug
   and every candidate before it is.
   */
  predicate IsLeastFree(base: string, existing: set<string>, k: nat) {
    Candidate(base, k) !in existing && TakenBelow(base, existing, k)
  }

  /** At most one index is the least free one. */
  lemma LeastFreeUnique(base: string, existing: set<string>, k1: nat, k2: nat)
    requires IsLeastFree(base, existing, k1) && IsLeastFree(base, existing, k2)
    ensures k1 == k2
  {
  }

  /**
   Reference definition of the search: the least free index at or after `k`,
   given that every candidate before `k` is taken.
   */
  function FirstFreeFrom(base: string, existing: set<string>, k: nat): (r: nat)
    requires TakenBelow(base, existing, k)
    ensures k <= r <= |existing|
    ensures IsLeastFree(base, existing, r)
    decreases |existing| - k
  {
    TakenBound(base, existing, k);
    if Candidate(base, k) !in existing then k
    else
      TakenBound(base, existing, k + 1);
      FirstFreeFrom(base, existing, k + 1)
  }

  /** The least free index for `base` among `existing`. */
  function LeastFreeIndex(base: string, existing: set<string>): (r: nat)
    ensures r <= |existing|
    ensures IsLeastFree(base, existing, r)
  {
    FirstFreeFrom(base, existing, 0)
  }

  /**
   The collision-avoidance loop of `Blog.save`: try the base slug, then
   `base-1`, `base-2`, ... and stop at the first one no stored Blog uses.
   `counter` is the counter of `Blog.save` after the loop, one past the suffix used.
   */
  method UniqueSlug(base: string, existing: set<string>) returns (slug: string, counter: nat)
    ensures counter >= 1
    ensures slug == Candidate(base, counter - 1)
    ensures slug !in existing
    ensures forall j :: 0 <= j < counter - 1 ==> Candidate(base, j) in existing
    ensures slug == base <==> base !in existing
    ensures counter - 1 <= |existing|
    ensures counter - 1 == LeastFreeIndex(base, existing)
  {
    slug := base;
    counter := 1;
    while slug in existing
      invariant counter >= 1
      invariant slug == Candidate(base, counter - 1)
      invariant TakenBelow(base, existing, counter - 1)
      invariant counter - 1 <= |existing|
      decreases |existing| - (counter - 1)
    {
      TakenBound(base, existing, counter);
      slug := base + "-" + NatToString(counter);
      counter := counter + 1;
    }
    LeastFreeUnique(base, existing, counter - 1, LeastFreeIndex(base, existing));
  }
}
