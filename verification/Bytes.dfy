/** Byte sequences and the plain filter that the hand-written byte scanners stand for. */
module Bytes {
  import opened Basics

  type Byte = b: int | 0 <= b < 256

  function Filter(s: seq<Byte>, keep: Byte -> bool): seq<Byte> {
    if s == [] then []
    else (if keep(s[0]) then [s[0]] else []) + Filter(s[1..], keep)
  }

  ghost predicate AllOf(s: seq<Byte>, keep: Byte -> bool) {
    forall i :: 0 <= i < |s| ==> keep(s[i])
  }

  lemma {:induction false} FilterAppend(a: seq<Byte>, b: seq<Byte>, keep: Byte -> bool)
    ensures Filter(a + b, keep) == Filter(a, keep) + Filter(b, keep)
  {
    if a == [] {
      assert a + b == b;
    } else {
      assert (a + b)[0] == a[0] && (a + b)[1..] == a[1..] + b;
      FilterAppend(a[1..], b, keep);
      Assoc(if keep(a[0]) then [a[0]] else [], Filter(a[1..], keep), Filter(b, keep));
    }
  }

  /** The filter leaves only kept bytes, and has nothing to do exactly when there are no others. */
  lemma {:induction false} FilterClears(s: seq<Byte>, keep: Byte -> bool)
    ensures AllOf(Filter(s, keep), keep)
    ensures Filter(s, keep) == s <==> AllOf(s, keep)
    ensures |Filter(s, keep)| <= |s|
  {
    if s != [] {
      FilterClears(s[1..], keep);
      assert s == [s[0]] + s[1..];
      if keep(s[0]) && AllOf(s[1..], keep) {
        forall i | 0 <= i < |s| ensures keep(s[i]) {
          assert i > 0 ==> s[i] == s[1..][i - 1];
        }
      }
      if AllOf(s, keep) {
        assert AllOf(s[1..], keep);
      }
    }
  }

  /** A byte that is not kept may stand anywhere. */
  lemma {:induction false} FilterDrops(noise: seq<Byte>, keep: Byte -> bool)
    requires forall i :: 0 <= i < |noise| ==> !keep(noise[i])
    ensures Filter(noise, keep) == []
  {
    if noise != [] {
      FilterDrops(noise[1..], keep);
    }
  }

  lemma FilterStep(s: seq<Byte>, keep: Byte -> bool, i: nat)
    requires i < |s|
    ensures Filter(s[..i + 1], keep) == Filter(s[..i], keep) + if keep(s[i]) then [s[i]] else []
  {
    assert s[..i + 1] == s[..i] + [s[i]];
    FilterAppend(s[..i], [s[i]], keep);
    assert [s[i]][1..] == [];
  }
}
