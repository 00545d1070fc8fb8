/** Normalising what is already normalised: when it changes nothing, and when it does. */
module Twice {
  import opened Runes
  import opened Regex
  import opened Normalize

  lemma {:induction false} FormsKeep(s: string)
    ensures forall c :: c in FormsOf(Runs(s)) ==> c in s && !IsPySpace(c)
    decreases |s|
  {
    if s == [] {
    } else if IsPySpace(s[0]) {
      FormsKeep(s[1..]);
    } else {
      var n := Span(NonSpace, s);
      SpanIsLongest(NonSpace, s);
      FormsKeep(s[n..]);
      forall c | c in FormsOf(Runs(s)) ensures c in s && !IsPySpace(c) {
        if c in RunForm(s[..n]) {
          var i :| 0 <= i < n && s[i] == c;
          assert In(s[i], NonSpace);
        }
      }
    }
  }

  /** A normalised line is a single run without NULs. */
  lemma NormalizedIsOneRun(s: string)
    ensures NoSpaceIn(Normalized(s)) && NUL !in Normalized(s)
  {
    FormsKeep(Without(s, NUL));
  }

  lemma RunOnItsOwn(w: string)
    requires NoSpaceIn(w) && NUL !in w
    ensures Normalized(w) == RunForm(w)
  {
    if w != [] {
      SpanRun(w, []);
      assert w + [] == w && w[..|w|] == w && w[|w|..] == [];
      assert Runs(w) == [w];
      assert FormsOf([w]) == RunForm(w) + FormsOf([]);
    }
  }

  /**
   The texts that normalisation leaves alone: no whitespace, no NUL, and either nothing at all or
   fewer than ten runes without an inner '@' or a scheme.
   */
  ghost predicate IsNormal(x: string) {
    && NoSpaceIn(x) && NUL !in x
    && (x == [] || (|x| < 10 && !AtInside(x) && forall j :: 0 <= j < |x| ==> !SchemeAt(x, j)))
  }

  /** Exactly these are the fixpoints of normalisation. */
  lemma NormalIffUnchanged(x: string)
    ensures Normalized(x) == x <==> IsNormal(x)
  {
    NormalizedIsOneRun(x);
    if NoSpaceIn(x) && NUL !in x {
      RunOnItsOwn(x);
      assert SchemeFrom(x, 0) == |x| ==> x[..SchemeFrom(x, 0)] == x;
    }
  }

  /**
   Normalising twice is the same as once exactly when the result is such a text. It need not be:
   joined by the removal of whitespace, the remains of several runs can form a token that the
   first pass did not see.
   */
  lemma NormalizedTwice(s: string)
    ensures var t := Normalized(s);
      Normalized(t) == t <==> t == [] || (|t| < 10 && !AtInside(t) && forall j :: 0 <= j < |t| ==> !SchemeAt(t, j))
  {
    NormalizedIsOneRun(s);
    NormalIffUnchanged(Normalized(s));
  }

  /** Two such words a space apart are joined; if they reach ten runes, the second pass deletes them both. */
  lemma TwoWords(a: string, b: string)
    requires IsNormal(a) && a != [] && IsNormal(b) && b != []
    ensures Normalized(a + [' '] + b) == a + b
    ensures |a + b| >= 10 ==> Normalized(a + b) == []
  {
    WordStays(a);
    WordStays(b);
    var s := a + [' '] + b;
    var rest := [' '] + b;
    assert s == a + rest && s[..|a|] == a && s[|a|..] == rest && rest[1..] == b;
    assert Without(s, NUL) == s;
    SpanRun(a, rest);
    SpanRun(b, []);
    assert b + [] == b && b[..|b|] == b && b[|b|..] == [];
    assert Runs(b) == [b];
    assert Runs(s) == [a] + Runs(rest);
    assert Runs(rest) == Runs(b);
    assert FormsOf([b]) == b + FormsOf([]);
    assert ([a] + [b])[1..] == [b];
    RunOnItsOwn(a + b);
  }

  lemma WordStays(w: string)
    requires IsNormal(w)
    ensures RunForm(w) == w
  {
    assert w[..SchemeFrom(w, 0)] == w;
  }

  lemma HelloIsNormal()
    ensures IsNormal("hello")
  {
  }

  lemma WorldIsNormal()
    ensures IsNormal("world")
  {
  }

  lemma HelloWorldVanishes()
    ensures Normalized("hello world") == "helloworld" && Normalized("helloworld") == ""
  {
    HelloIsNormal();
    WorldIsNormal();
    var a, b := "hello", "world";
    TwoWords(a, b);
    assert a + [' '] + b == "hello world";
    assert a + b == "helloworld";
  }
}
