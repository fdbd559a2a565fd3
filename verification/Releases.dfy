/** OS releases and their order (src/rpm_ostree/mod.rs). */
module Releases {
  import opened Wrappers

  /**
   * A parsed OCI image reference, a library value. `whole` is the text the library
   * prints for it; `rest` stands for whatever else its equality can see.
   */
  datatype Reference = Reference(whole: string, rest: string) {
    /** A digest is printed after an at sign, which nothing else in a reference contains. */
    predicate HasDigest() {
      '@' in whole
    }
  }

  datatype Payload = Checksum(checksum: string) | Pullspec(reference: Reference) {
    /** The displayed text, which is what the release order compares. */
    function ToString(): string {
      match this
      case Checksum(checksum) => checksum
      case Pullspec(reference) => reference.whole
    }
  }

  datatype Release = Release(version: string, payload: Payload, ageIndex: Option<uint64>) {
    function Age(): uint64 {
      if ageIndex.Some? then ageIndex.value else 0
    }

    /** The image reference of an OCI payload, printed; nothing for a plain checksum. */
    function ImageReference(): Option<string> {
      match payload
      case Checksum(_) => None
      case Pullspec(reference) => Some(reference.whole)
    }
  }

  datatype Ordering = Less | Equal | Greater {
    function Reverse(): Ordering {
      match this
      case Less => Greater
      case Equal => Equal
      case Greater => Less
    }
  }

  function CompareNat(a: nat, b: nat): Ordering {
    if a < b then Less else if a > b then Greater else Equal
  }

  /** Lexicographic order of texts. */
  function CompareText(a: string, b: string): Ordering {
    if a == [] then if b == [] then Equal else Less
    else if b == [] then Greater
    else if a[0] < b[0] then Less
    else if a[0] > b[0] then Greater
    else CompareText(a[1..], b[1..])
  }

  /** The order of releases: age index first, then version, then payload text. */
  function Cmp(a: Release, b: Release): Ordering {
    if a.Age() != b.Age() then CompareNat(a.Age(), b.Age())
    else if a.version != b.version then CompareText(a.version, b.version)
    else if a.payload != b.payload then CompareText(a.payload.ToString(), b.payload.ToString())
    else Equal
  }

  predicate AtMost(a: Release, b: Release) {
    Cmp(a, b) != Greater
  }

  lemma {:induction false} CompareTextEqual(a: string, b: string)
    ensures CompareText(a, b) == Equal <==> a == b
  {
    if a != [] && b != [] && a[0] == b[0] {
      CompareTextEqual(a[1..], b[1..]);
      assert a == [a[0]] + a[1..] && b == [b[0]] + b[1..];
    }
  }

  lemma {:induction false} CompareTextReverse(a: string, b: string)
    ensures CompareText(b, a) == CompareText(a, b).Reverse()
  {
    if a != [] && b != [] && a[0] == b[0] {
      CompareTextReverse(a[1..], b[1..]);
    }
  }

  lemma {:induction false} CompareTextTransitive(a: string, b: string, c: string)
    requires CompareText(a, b) == Less && CompareText(b, c) == Less
    ensures CompareText(a, c) == Less
  {
    if a != [] && b != [] && c != [] && a[0] == b[0] == c[0] {
      CompareTextTransitive(a[1..], b[1..], c[1..]);
    }
  }

  /** The texts agree before position `k`, where the first ends or has the smaller character. */
  ghost predicate PrecedesAt(a: string, b: string, k: nat) {
    && k <= |a| && k < |b|
    && a[..k] == b[..k]
    && (k == |a| || a[k] < b[k])
  }

  ghost predicate TextPrecedes(a: string, b: string) {
    exists k: nat :: PrecedesAt(a, b, k)
  }

  lemma {:induction false} LessGivesPosition(a: string, b: string) returns (k: nat)
    requires CompareText(a, b) == Less
    ensures PrecedesAt(a, b, k)
  {
    if a == [] || a[0] < b[0] {
      k := 0;
    } else {
      var j := LessGivesPosition(a[1..], b[1..]);
      k := j + 1;
      assert a[..k] == [a[0]] + a[1..][..j] && b[..k] == [b[0]] + b[1..][..j];
    }
  }

  lemma {:induction false} PositionGivesLess(a: string, b: string, k: nat)
    requires PrecedesAt(a, b, k)
    ensures CompareText(a, b) == Less
  {
    if k > 0 {
      assert a[0] == a[..k][0] == b[..k][0] == b[0];
      assert a[1..][..k - 1] == a[..k][1..] && b[1..][..k - 1] == b[..k][1..];
      PositionGivesLess(a[1..], b[1..], k - 1);
    }
  }

  lemma CompareTextLessExactly(a: string, b: string)
    ensures CompareText(a, b) == Less <==> TextPrecedes(a, b)
  {
    if CompareText(a, b) == Less {
      var k := LessGivesPosition(a, b);
    }
    if k: nat :| PrecedesAt(a, b, k) {
      PositionGivesLess(a, b, k);
    }
  }

  /**
   * Which of two releases is the lesser: of lower age index, then of preceding version, then of
   * preceding payload text.
   */
  lemma CmpLessExactly(a: Release, b: Release)
    ensures Cmp(a, b) == Less <==>
            || a.Age() < b.Age()
            || (a.Age() == b.Age() && TextPrecedes(a.version, b.version))
            || (a.Age() == b.Age() && a.version == b.version
                && TextPrecedes(a.payload.ToString(), b.payload.ToString()))
  {
    CompareTextEqual(a.version, b.version);
    CompareTextEqual(a.payload.ToString(), b.payload.ToString());
    CompareTextLessExactly(a.version, b.version);
    CompareTextLessExactly(a.payload.ToString(), b.payload.ToString());
  }

  /** Two releases compare equal exactly when age, version and payload text coincide. */
  lemma CmpEqualExactly(a: Release, b: Release)
    ensures Cmp(a, b) == Equal <==>
            a.Age() == b.Age() && a.version == b.version && a.payload.ToString() == b.payload.ToString()
  {
    CompareTextEqual(a.version, b.version);
    CompareTextEqual(a.payload.ToString(), b.payload.ToString());
  }

  lemma CmpReverse(a: Release, b: Release)
    ensures Cmp(b, a) == Cmp(a, b).Reverse()
  {
    CompareTextReverse(a.version, b.version);
    CompareTextReverse(a.payload.ToString(), b.payload.ToString());
  }

  lemma CmpTransitive(a: Release, b: Release, c: Release)
    requires AtMost(a, b) && AtMost(b, c)
    ensures AtMost(a, c)
    ensures Cmp(a, c) == Equal <==> Cmp(a, b) == Equal && Cmp(b, c) == Equal
  {
    CmpEqualExactly(a, b);
    CmpEqualExactly(b, c);
    CmpEqualExactly(a, c);
    if Cmp(a, b) == Less && Cmp(b, c) == Less {
      if a.Age() == b.Age() == c.Age() {
        CompareTextEqual(a.version, b.version);
        CompareTextEqual(b.version, c.version);
        if a.version != b.version && b.version != c.version {
          CompareTextTransitive(a.version, b.version, c.version);
          CompareTextEqual(a.version, c.version);
        } else if a.version == b.version == c.version {
          CompareTextTransitive(a.payload.ToString(), b.payload.ToString(), c.payload.ToString());
          CompareTextEqual(a.payload.ToString(), c.payload.ToString());
        }
      }
    }
  }

  /** The comparison is a total preorder on releases. */
  lemma CmpIsTotalPreorder(a: Release, b: Release, c: Release)
    ensures AtMost(a, a)
    ensures AtMost(a, b) || AtMost(b, a)
    ensures AtMost(a, b) && AtMost(b, c) ==> AtMost(a, c)
    ensures AtMost(a, b) && AtMost(b, a) <==> Cmp(a, b) == Equal
  {
    CmpReverse(a, b);
    if AtMost(a, b) && AtMost(b, c) {
      CmpTransitive(a, b, c);
    }
  }

  /** No two different payloads of `payloads` print the same text. */
  ghost predicate TextInjective(payloads: set<Payload>) {
    forall p, q | p in payloads && q in payloads && p.ToString() == q.ToString() :: p == q
  }
}
