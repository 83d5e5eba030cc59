/** Composite map keys: two strings joined by a colon, and a string joined to a decimal number. */
module Keys {

  function Join(left: string, right: string): string { left + ":" + right }

  function Decimal(n: nat): (s: string)
    ensures |s| > 0 && forall c | c in s :: '0' <= c <= '9'
  {
    var digit := ['0' + (n % 10) as char];
    if n < 10 then digit else Decimal(n / 10) + digit
  }

  /** `whole` is `tail` with something and a colon in front of it. */
  predicate ColonTail(tail: string, whole: string) {
    |tail| < |whole| && whole[|whole| - |tail|..] == tail && whole[|whole| - |tail| - 1] == ':'
  }

  /** A joined key determines both halves unless one right half is a colon tail of the other... */
  lemma JoinInjective(l1: string, r1: string, l2: string, r2: string)
    requires !ColonTail(r1, r2) && !ColonTail(r2, r1)
    requires Join(l1, r1) == Join(l2, r2)
    ensures l1 == l2 && r1 == r2
  {
    LongerRight(l1, r1, l2, r2);
    LongerRight(l2, r2, l1, r1);
    var k := Join(l1, r1);
    assert l1 == k[..|l1|] && r1 == k[|l1| + 1..] && l2 == k[..|l2|] && r2 == k[|l2| + 1..];
  }

  lemma LongerRight(l1: string, r1: string, l2: string, r2: string)
    requires Join(l1, r1) == Join(l2, r2)
    ensures |r1| <= |r2| || ColonTail(r2, r1)
  {
    if |r1| > |r2| {
      var k, cut := Join(l1, r1), |r1| - |r2|;
      assert r1[cut..] == k[|k| - |r2|..] == r2;
      assert r1[cut - 1] == k[|l2|] == ':';
    }
  }

  /** ...and whenever one is, two different pairs share a key. */
  lemma JoinAmbiguous(r1: string, r2: string) returns (l1: string, l2: string)
    requires ColonTail(r1, r2)
    ensures Join(l1, r1) == Join(l2, r2) && r1 != r2
  {
    var cut := |r2| - |r1| - 1;
    l1, l2 := ":" + r2[..cut], "";
    assert r2 == r2[..cut] + ":" + r1;
    assert Join(l1, r1) == ":" + (r2[..cut] + ":" + r1);
  }

  /** When exactly two keys with right halves of different length are the same: the longer right half is the other
      behind a colon, and what stands before that colon is the difference between the left halves. */
  lemma JoinEqualIff(l1: string, r1: string, l2: string, r2: string)
    requires |r1| < |r2|
    ensures Join(l1, r1) == Join(l2, r2) <==> exists x :: r2 == x + ":" + r1 && l1 == l2 + ":" + x
  {
    if Join(l1, r1) == Join(l2, r2) {
      var k, x := Join(l1, r1), r2[..|r2| - |r1| - 1];
      assert l1 == k[..|l1|] && r1 == k[|l1| + 1..] && l2 == k[..|l2|] && r2 == k[|l2| + 1..];
      assert r2 == x + ":" + r1 && l1 == l2 + ":" + x;
    }
    forall x | r2 == x + ":" + r1 && l1 == l2 + ":" + x ensures Join(l1, r1) == Join(l2, r2) {
      assert Join(l1, r1) == l2 + ":" + x + ":" + r1 == Join(l2, r2);
    }
  }

  /** With right halves of equal length the keys are the same only for the same halves. */
  lemma JoinEqualLength(l1: string, r1: string, l2: string, r2: string)
    requires |r1| == |r2|
    ensures Join(l1, r1) == Join(l2, r2) <==> l1 == l2 && r1 == r2
  {
    if Join(l1, r1) == Join(l2, r2) { JoinInjective(l1, r1, l2, r2); }
  }

  lemma {:induction false} DecimalInjective(m: nat, n: nat)
    requires Decimal(m) == Decimal(n)
    ensures m == n
  {
    var dm, dn := Decimal(m), Decimal(n);
    assert dm[|dm| - 1] == '0' + (m % 10) as char;
    assert dn[|dn| - 1] == '0' + (n % 10) as char;
    assert m % 10 == n % 10;
    if m >= 10 && n >= 10 {
      assert Decimal(m / 10) == dm[..|dm| - 1] && Decimal(n / 10) == dn[..|dn| - 1];
      DecimalInjective(m / 10, n / 10);
    }
  }

  lemma DecimalKeyInjective(l1: string, n1: nat, l2: string, n2: nat)
    requires Join(l1, Decimal(n1)) == Join(l2, Decimal(n2))
    ensures l1 == l2 && n1 == n2
  {
    assert ':' !in Decimal(n1) && ':' !in Decimal(n2);
    JoinInjective(l1, Decimal(n1), l2, Decimal(n2));
    DecimalInjective(n1, n2);
  }
}
