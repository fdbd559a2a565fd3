/**
 * The standard library's ordered set, instantiated to releases: a sequence that
 * ascends strictly in the release order. Elements that compare equal are one element.
 */
module ReleaseSets {
  import opened Releases

  ghost predicate AllAbove(s: seq<Release>, r: Release) {
    forall x | x in s :: Cmp(r, x) == Less
  }

  ghost predicate Ascending(s: seq<Release>) {
    s == [] || (AllAbove(s[1..], s[0]) && Ascending(s[1..]))
  }

  type ReleaseSet = s: seq<Release> | Ascending(s) witness []

  /** Membership is by comparison, not by equality. */
  ghost predicate Has(s: seq<Release>, r: Release) {
    exists x :: x in s && Cmp(x, r) == Equal
  }

  function Payloads(s: seq<Release>): set<Payload> {
    set r | r in s :: r.payload
  }

  /** Insertion; an element that compares equal to a present one is dropped. */
  function Insert(s: ReleaseSet, r: Release): (t: ReleaseSet)
    ensures forall x :: x in t ==> x in s || x == r
    ensures forall x :: x in s ==> x in t
  {
    if s == [] then
      assert Ascending([r]);
      [r]
    else match Cmp(r, s[0])
      case Less => PrependAscends(r, s); [r] + s
      case Equal => s
      case Greater =>
        var rest := Insert(s[1..], r);
        CmpReverse(r, s[0]);
        assert AllAbove(rest, s[0]);
        assert ([s[0]] + rest)[1..] == rest;
        [s[0]] + rest
  }

  lemma AboveHeadIsAboveAll(r: Release, s: ReleaseSet)
    requires s != [] && Cmp(r, s[0]) == Less
    ensures AllAbove(s, r)
  {
    forall x | x in s ensures Cmp(r, x) == Less {
      if x in s[1..] { CmpTransitive(r, s[0], x); }
    }
  }

  lemma PrependAscends(r: Release, s: ReleaseSet)
    requires s != [] && Cmp(r, s[0]) == Less
    ensures Ascending([r] + s)
  {
    AboveHeadIsAboveAll(r, s);
    assert ([r] + s)[1..] == s;
  }

  lemma BelowAllIsAbsent(s: ReleaseSet, r: Release)
    requires s != [] && Cmp(r, s[0]) == Less
    ensures !Has(s, r)
  {
    AboveHeadIsAboveAll(r, s);
    forall x | x in s ensures Cmp(x, r) != Equal {
      CmpReverse(x, r);
    }
  }

  lemma HasInTail(s: ReleaseSet, r: Release)
    requires s != [] && Cmp(s[0], r) != Equal
    ensures Has(s, r) <==> Has(s[1..], r)
  {
  }

  lemma HasMember(s: seq<Release>, r: Release)
    requires r in s
    ensures Has(s, r)
  {
  }

  lemma HasInLarger(s: seq<Release>, t: seq<Release>, r: Release)
    requires Has(s, r) && forall x :: x in s ==> x in t
    ensures Has(t, r)
  {
  }

  lemma {:induction false} InsertedIsPresent(s: ReleaseSet, r: Release)
    ensures Has(Insert(s, r), r)
  {
    if s == [] || Cmp(r, s[0]) == Less {
      assert Insert(s, r)[0] == r;
      HasMember(Insert(s, r), r);
    } else if Cmp(r, s[0]) == Equal {
      CmpReverse(s[0], r);
      assert s[0] in s;
    } else {
      InsertedIsPresent(s[1..], r);
      HasInLarger(Insert(s[1..], r), Insert(s, r), r);
    }
  }

  /** What insertion does: the element is dropped exactly when one comparing equal is there. */
  lemma {:induction false} InsertExactly(s: ReleaseSet, r: Release)
    ensures Has(s, r) ==> Insert(s, r) == s
    ensures !Has(s, r) ==> r in Insert(s, r)
  {
    if s == [] {
      assert Insert(s, r)[0] == r;
    } else {
      CmpReverse(s[0], r);
      match Cmp(r, s[0])
      case Less =>
        BelowAllIsAbsent(s, r);
        assert Insert(s, r)[0] == r;
      case Equal =>
        assert s[0] in s;
      case Greater =>
        InsertExactly(s[1..], r);
        HasInTail(s, r);
    }
  }

  /** The elements of `s` that compare equal to no element of `gone`. */
  function Difference(s: ReleaseSet, gone: seq<Release>): (t: ReleaseSet)
    ensures forall x :: x in t <==> x in s && !Contains(gone, x)
  {
    if s == [] then []
    else
      var rest := Difference(s[1..], gone);
      assert s == [s[0]] + s[1..];
      if Contains(gone, s[0]) then rest
      else assert ([s[0]] + rest)[1..] == rest; [s[0]] + rest
  }

  /** The executable form of `Has`. */
  predicate Contains(s: seq<Release>, r: Release)
    ensures Contains(s, r) <==> Has(s, r)
  {
    if s == [] then false
    else
      assert s == [s[0]] + s[1..];
      Cmp(s[0], r) == Equal || Contains(s[1..], r)
  }

  lemma {:induction false} LastIsGreatest(s: ReleaseSet, x: Release)
    requires x in s
    ensures AtMost(x, s[|s| - 1])
  {
    CmpIsTotalPreorder(x, x, x);
    if |s| > 1 {
      if x in s[1..] {
        LastIsGreatest(s[1..], x);
      } else {
        assert s[|s| - 1] in s[1..];
      }
    }
  }

  lemma HasTransfers(s: seq<Release>, x: Release, y: Release)
    requires Cmp(x, y) == Equal && Has(s, x)
    ensures Has(s, y)
  {
    var z :| z in s && Cmp(z, x) == Equal;
    CmpTransitive(z, x, y);
  }

  /** A set that has an element comparing equal to `r` ends at or above `r`. */
  lemma LastIsAtLeast(s: ReleaseSet, r: Release)
    requires Has(s, r)
    ensures s != [] && AtMost(r, s[|s| - 1])
  {
    var x :| x in s && Cmp(x, r) == Equal;
    CmpReverse(x, r);
    LastIsGreatest(s, x);
    CmpTransitive(r, x, s[|s| - 1]);
  }
}
