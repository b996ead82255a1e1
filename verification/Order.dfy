/** Sequences of numbers, and texts, in dictionary order. */
module Order {

  /** `a` comes before `b`, compared item by item, a prefix first. */
  predicate Before(a: seq<int>, b: seq<int>) {
    b != [] && (a == [] || a[0] < b[0] || (a[0] == b[0] && Before(a[1..], b[1..])))
  }

  lemma {:induction false} BeforeIsTotal(a: seq<int>, b: seq<int>)
    requires a != b
    ensures Before(a, b) || Before(b, a)
    decreases |a|
  {
    if a != [] && b != [] && a[0] == b[0] {
      assert a == [a[0]] + a[1..] && b == [b[0]] + b[1..];
      BeforeIsTotal(a[1..], b[1..]);
    }
  }

  lemma {:induction false} BeforeIsStrict(a: seq<int>, b: seq<int>)
    ensures !(Before(a, b) && Before(b, a))
    decreases |a|
  {
    if a != [] && b != [] && a[0] == b[0] {
      BeforeIsStrict(a[1..], b[1..]);
    }
  }

  lemma {:induction false} BeforeIsTransitive(a: seq<int>, b: seq<int>, c: seq<int>)
    requires Before(a, b) && Before(b, c)
    ensures Before(a, c)
    decreases |a|
  {
    if a != [] && a[0] == b[0] == c[0] {
      BeforeIsTransitive(a[1..], b[1..], c[1..]);
    }
  }

  /** Up to some place the two agree, and there `a` ends or is smaller. */
  ghost predicate SmallerAtFirstDifference(a: seq<int>, b: seq<int>) {
    exists n :: 0 <= n <= |a| && n < |b| && a[..n] == b[..n] && (n == |a| || a[n] < b[n])
  }

  lemma {:induction false} BeforeExactly(a: seq<int>, b: seq<int>)
    ensures Before(a, b) <==> SmallerAtFirstDifference(a, b)
    decreases |a|
  {
    if a == [] || b == [] || a[0] != b[0] {
      SmallerAtOnce(a, b);
    } else {
      BeforeExactly(a[1..], b[1..]);
      if n :| 0 <= n <= |a[1..]| && n < |b[1..]| && a[1..][..n] == b[1..][..n] && (n == |a[1..]| || a[1..][n] < b[1..][n]) {
        assert a[..n + 1] == [a[0]] + a[1..][..n] && b[..n + 1] == [b[0]] + b[1..][..n];
        assert SmallerAtFirstDifference(a, b);
      }
      if n :| 0 <= n <= |a| && n < |b| && a[..n] == b[..n] && (n == |a| || a[n] < b[n]) {
        assert a[1..][..n - 1] == a[..n][1..] && b[1..][..n - 1] == b[..n][1..];
        assert SmallerAtFirstDifference(a[1..], b[1..]);
      }
    }
  }

  lemma SmallerAtOnce(a: seq<int>, b: seq<int>)
    requires a == [] || b == [] || a[0] != b[0]
    ensures Before(a, b) <==> SmallerAtFirstDifference(a, b)
  {
    if b != [] && (a == [] || a[0] < b[0]) {
      assert a[..0] == b[..0];
    }
    if n :| 0 <= n <= |a| && n < |b| && a[..n] == b[..n] && (n == |a| || a[n] < b[n]) {
      assert forall k {:trigger a[k]} :: 0 <= k < n ==> a[k] == a[..n][k] == b[..n][k] == b[k];
    }
  }

  // ---- texts, by code point, which is the order of their UTF-8 bytes ------------------------

  function Codes(text: string): (codes: seq<int>)
    ensures |codes| == |text| && forall i :: 0 <= i < |text| ==> codes[i] == text[i] as int
  {
    seq(|text|, i requires 0 <= i < |text| => text[i] as int)
  }

  lemma CodesTellApart(a: string, b: string)
    ensures Codes(a) == Codes(b) ==> a == b
  {
    if Codes(a) == Codes(b) {
      assert forall i :: 0 <= i < |a| ==> a[i] as int == Codes(a)[i] && b[i] as int == Codes(b)[i];
    }
  }

  predicate Precedes(a: string, b: string) {
    Before(Codes(a), Codes(b))
  }

  lemma PrecedesIsStrict(a: string, b: string)
    ensures a == b ==> !Precedes(a, b)
    ensures !(Precedes(a, b) && Precedes(b, a))
  {
    BeforeIsStrict(Codes(a), Codes(b));
  }

  lemma PrecedesIsTotal(a: string, b: string)
    requires a != b
    ensures Precedes(a, b) <==> !Precedes(b, a)
  {
    CodesTellApart(a, b);
    BeforeIsTotal(Codes(a), Codes(b));
    BeforeIsStrict(Codes(a), Codes(b));
  }

  lemma PrecedesIsTransitive(a: string, b: string, c: string)
    requires Precedes(a, b) && Precedes(b, c)
    ensures Precedes(a, c)
  {
    BeforeIsTransitive(Codes(a), Codes(b), Codes(c));
  }

  /** A shared start decides nothing. */
  lemma {:induction false} AfterTheSame(start: seq<int>, a: seq<int>, b: seq<int>)
    ensures Before(start + a, start + b) <==> Before(a, b)
  {
    if start == [] {
      assert start + a == a && start + b == b;
    } else {
      assert (start + a)[1..] == start[1..] + a && (start + b)[1..] == start[1..] + b;
      AfterTheSame(start[1..], a, b);
    }
  }

  /** Once texts of one length differ, what follows does not matter. */
  lemma {:induction false} DecidedAtTheStart(a: seq<int>, b: seq<int>, moreA: seq<int>, moreB: seq<int>)
    requires |a| == |b| && Before(a, b)
    ensures Before(a + moreA, b + moreB)
  {
    assert (a + moreA)[0] == a[0] && (b + moreB)[0] == b[0];
    if a[0] == b[0] {
      assert (a + moreA)[1..] == a[1..] + moreA && (b + moreB)[1..] == b[1..] + moreB;
      DecidedAtTheStart(a[1..], b[1..], moreA, moreB);
    }
  }

  lemma CodesOfBoth(a: string, b: string)
    ensures Codes(a + b) == Codes(a) + Codes(b)
  {
  }

  lemma SameStart(start: string, a: string, b: string)
    ensures Precedes(start + a, start + b) <==> Precedes(a, b)
  {
    CodesOfBoth(start, a);
    CodesOfBoth(start, b);
    AfterTheSame(Codes(start), Codes(a), Codes(b));
  }

  lemma StartDecides(a: string, b: string, moreA: string, moreB: string)
    requires |a| == |b| && Precedes(a, b)
    ensures Precedes(a + moreA, b + moreB)
  {
    CodesOfBoth(a, moreA);
    CodesOfBoth(b, moreB);
    DecidedAtTheStart(Codes(a), Codes(b), Codes(moreA), Codes(moreB));
  }
}
