/** Resource names and labels: splitting at slashes, the string order, and sorting by label. */
module Labels {

  predicate HasSlash(name: string) {
    '/' in name
  }

  /** `strings.Split(name, "/")`. */
  function Split(name: string): (parts: seq<string>)
    ensures parts != []
    ensures |parts| == 1 <==> !HasSlash(name)
  {
    if name == [] then [[]]
    else
      var rest := Split(name[1..]);
      assert name == [name[0]] + name[1..];
      if name[0] == '/' then [[]] + rest else [[name[0]] + rest[0]] + rest[1..]
  }

  /** The part after the slash when there is exactly one, and the whole name otherwise. */
  function LabelOf(name: string): string {
    var parts := Split(name);
    if |parts| == 2 then parts[1] else name
  }

  /** The parts with slashes between them. */
  function Join(parts: seq<string>): string {
    if parts == [] then []
    else if |parts| == 1 then parts[0]
    else parts[0] + "/" + Join(parts[1..])
  }

  predicate NoSlashes(parts: seq<string>) {
    forall i :: 0 <= i < |parts| ==> !HasSlash(parts[i])
  }

  lemma JoinSlash(parts: seq<string>)
    requires parts != [] && NoSlashes(parts)
    ensures NoSlashes([[]] + parts) && Join([[]] + parts) == "/" + Join(parts)
  {
    assert ([[]] + parts)[1..] == parts;
  }

  lemma JoinLonger(c: char, parts: seq<string>)
    requires parts != [] && NoSlashes(parts) && c != '/'
    ensures var longer := [[c] + parts[0]] + parts[1..];
            NoSlashes(longer) && Join(longer) == [c] + Join(parts)
  {
    var longer := [[c] + parts[0]] + parts[1..];
    assert longer[1..] == parts[1..];
    assert [c] + (parts[0] + "/" + Join(parts[1..])) == ([c] + parts[0]) + "/" + Join(parts[1..]);
  }

  lemma {:induction false} SplitJoins(name: string)
    ensures NoSlashes(Split(name)) && Join(Split(name)) == name
  {
    if name != [] {
      SplitJoins(name[1..]);
      assert name == [name[0]] + name[1..];
      if name[0] == '/' {
        JoinSlash(Split(name[1..]));
      } else {
        JoinLonger(name[0], Split(name[1..]));
      }
    }
  }

  lemma {:induction false} SplitFirst(a: string, b: string)
    requires !HasSlash(a)
    ensures Split(a + "/" + b) == [a] + Split(b)
  {
    var name := a + "/" + b;
    if a == [] {
      assert name[0] == '/' && name[1..] == b;
    } else {
      assert name[0] == a[0] && name[1..] == a[1..] + "/" + b;
      assert a == [a[0]] + a[1..];
      assert '/' !in a[1..];
      SplitFirst(a[1..], b);
    }
  }

  lemma {:induction false} SplitWhole(a: string)
    requires !HasSlash(a)
    ensures Split(a) == [a]
  {
    if a != [] {
      assert a == [a[0]] + a[1..];
      assert '/' !in a[1..];
      SplitWhole(a[1..]);
    }
  }

  /** Splitting is the inverse of joining: parts without slashes, at least one of them, are what
      their join splits into. */
  lemma {:induction false} JoinSplits(parts: seq<string>)
    requires parts != [] && NoSlashes(parts)
    ensures Split(Join(parts)) == parts
  {
    if |parts| == 1 {
      SplitWhole(parts[0]);
    } else {
      SplitFirst(parts[0], Join(parts[1..]));
      JoinSplits(parts[1..]);
      assert parts == [parts[0]] + parts[1..];
    }
  }

  /** The label of "domain/device" is "device". */
  lemma LabelAfterSlash(a: string, b: string)
    requires !HasSlash(a) && !HasSlash(b)
    ensures HasSlash(a + "/" + b) && LabelOf(a + "/" + b) == b
  {
    SplitFirst(a, b);
    SplitWhole(b);
    assert (a + "/" + b)[|a|] == '/';
  }

  predicate TwoParts(name: string, a: string, b: string) {
    !HasSlash(a) && !HasSlash(b) && name == a + "/" + b
  }

  /** A name with exactly one slash has what follows it as label; any other is its own label. */
  lemma LabelIff(name: string)
    ensures forall a, b :: TwoParts(name, a, b) ==> LabelOf(name) == b
    ensures (forall a, b :: !TwoParts(name, a, b)) ==> LabelOf(name) == name
  {
    forall a, b | TwoParts(name, a, b)
      ensures LabelOf(name) == b
    {
      LabelAfterSlash(a, b);
    }
    var parts := Split(name);
    if |parts| == 2 {
      SplitJoins(name);
      assert Join(parts[1..]) == parts[1];
      assert TwoParts(name, parts[0], parts[1]);
    }
  }

  /** Go's order on strings. */
  predicate AtMost(a: string, b: string) {
    a == [] || (b != [] && (a[0] < b[0] || (a[0] == b[0] && AtMost(a[1..], b[1..]))))
  }

  /** The two strings differ first at `k`, where `a` has the smaller character. */
  predicate SmallerAt(a: string, b: string, k: nat) {
    k < |a| && k < |b| && a[..k] == b[..k] && a[k] < b[k]
  }

  /** It is the lexicographic order: `a` is at most `b` if and only if it is a prefix of it or
      has the smaller character at the first difference. */
  lemma {:induction false} AtMostIff(a: string, b: string)
    ensures AtMost(a, b) <==> a <= b || exists k :: SmallerAt(a, b, k)
  {
    if a != [] && b != [] {
      forall k: nat | SmallerAt(a, b, k)
        ensures a[0] <= b[0]
      {
        assert k > 0 ==> a[..k][0] == a[0] && b[..k][0] == b[0];
      }
      if a[0] == b[0] {
        AtMostIff(a[1..], b[1..]);
        assert a == [a[0]] + a[1..] && b == [b[0]] + b[1..];
        if k: nat :| SmallerAt(a[1..], b[1..], k) {
          assert a[..k + 1] == [a[0]] + a[1..][..k] && b[..k + 1] == [b[0]] + b[1..][..k];
          assert SmallerAt(a, b, k + 1);
        }
        if k: nat :| SmallerAt(a, b, k) {
          assert k > 0;
          assert a[1..][..k - 1] == a[..k][1..] && b[1..][..k - 1] == b[..k][1..];
          assert SmallerAt(a[1..], b[1..], k - 1);
        }
      } else if a[0] < b[0] {
        assert SmallerAt(a, b, 0);
      }
    }
  }

  lemma {:induction false} AtMostTotal(a: string, b: string)
    ensures AtMost(a, b) || AtMost(b, a)
  {
    if a != [] && b != [] {
      AtMostTotal(a[1..], b[1..]);
    }
  }

  lemma {:induction false} AtMostAntisymmetric(a: string, b: string)
    requires AtMost(a, b) && AtMost(b, a)
    ensures a == b
  {
    if a != [] && b != [] {
      AtMostAntisymmetric(a[1..], b[1..]);
      assert a == [a[0]] + a[1..] && b == [b[0]] + b[1..];
    }
  }

  lemma {:induction false} AtMostTransitive(a: string, b: string, c: string)
    requires AtMost(a, b) && AtMost(b, c)
    ensures AtMost(a, c)
  {
    if a != [] && a[0] == b[0] == c[0] {
      AtMostTransitive(a[1..], b[1..], c[1..]);
    }
  }

  lemma {:induction false} AtMostReflexive(a: string)
    ensures AtMost(a, a)
  {
    if a != [] {
      AtMostReflexive(a[1..]);
    }
  }
}
