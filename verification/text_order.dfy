/**
 The order the store uses for `trigger_time <= now`.

 Both `trigger_time` (a TEXT column) and the scheduler's `now` (the text of an
 ISO timestamp) are strings, so the due test is a comparison of text, not of
 points in time. This module fixes that comparison as the lexicographic order of
 code points (the "C" collation), and proves it is a total order.
 */
module TextOrder {

  /** `a <= b` in lexicographic order: a proper prefix comes first, otherwise
      the first differing character decides. */
  predicate LexLe(a: string, b: string)
  {
    if |a| == 0 then true
    else if |b| == 0 then false
    else if a[0] != b[0] then a[0] < b[0]
    else LexLe(a[1..], b[1..])
  }

  /** The textbook definition: `a` is a prefix of `b`, or at the first position
      where they differ `a` has the smaller character. */
  ghost predicate LexLeSpec(a: string, b: string)
  {
    a <= b ||
    exists k :: 0 <= k < |a| && k < |b| && a[..k] == b[..k] && a[k] < b[k]
  }

  /** A first difference in the tails is a first difference one place later
      in the whole texts. */
  lemma DifferenceInTail(a: string, b: string, k: nat)
    requires |a| > 0 && |b| > 0 && a[0] == b[0]
    requires k < |a| - 1 && k < |b| - 1 && a[1..][..k] == b[1..][..k] && a[1..][k] < b[1..][k]
    ensures a[..k + 1] == b[..k + 1] && a[k + 1] < b[k + 1]
  {
    assert a[..k + 1] == [a[0]] + a[1..][..k];
    assert b[..k + 1] == [b[0]] + b[1..][..k];
  }

  /** A first difference in the whole texts past the common head is one in
      the tails, one place earlier. */
  lemma DifferenceInWhole(a: string, b: string, k: nat)
    requires |a| > 0 && |b| > 0 && a[0] == b[0]
    requires k < |a| && k < |b| && a[..k] == b[..k] && a[k] < b[k]
    ensures 0 < k && a[1..][..k - 1] == b[1..][..k - 1] && a[1..][k - 1] < b[1..][k - 1]
  {
    assert a[1..][..k - 1] == a[..k][1..];
    assert b[1..][..k - 1] == b[..k][1..];
  }

  /** Texts with the same first character compare as their tails do: the
      prefix case and the first-difference case both shift by one. */
  lemma SpecDropsCommonHead(a: string, b: string)
    requires |a| > 0 && |b| > 0 && a[0] == b[0]
    ensures LexLeSpec(a, b) <==> LexLeSpec(a[1..], b[1..])
  {
    var a', b' := a[1..], b[1..];
    assert a <= b <==> a' <= b' by {
      assert a == [a[0]] + a' && b == [b[0]] + b';
    }
    if exists k :: 0 <= k < |a'| && k < |b'| && a'[..k] == b'[..k] && a'[k] < b'[k] {
      var k :| 0 <= k < |a'| && k < |b'| && a'[..k] == b'[..k] && a'[k] < b'[k];
      DifferenceInTail(a, b, k);
    }
    if exists k :: 0 <= k < |a| && k < |b| && a[..k] == b[..k] && a[k] < b[k] {
      var k :| 0 <= k < |a| && k < |b| && a[..k] == b[..k] && a[k] < b[k];
      DifferenceInWhole(a, b, k);
    }
  }

  /** The recursive comparison agrees with the textbook definition, both ways. */
  lemma {:induction false} LexLeMeansSpec(a: string, b: string)
    ensures LexLe(a, b) <==> LexLeSpec(a, b)
  {
    if |a| == 0 {
      assert a <= b;
    } else if |b| == 0 {
      assert !(a <= b);
    } else if a[0] != b[0] {
      assert !(a <= b);
      if a[0] < b[0] {
        assert a[..0] == b[..0];
      }
    } else {
      LexLeMeansSpec(a[1..], b[1..]);
      SpecDropsCommonHead(a, b);
    }
  }

  /** Two texts that agree up to position `k` and differ there are ordered by
      their characters at `k`. */
  lemma FirstDifferenceDecides(a: string, b: string, k: nat)
    requires k < |a| && k < |b| && a[..k] == b[..k] && a[k] != b[k]
    ensures LexLe(a, b) <==> a[k] < b[k]
  {
    LexLeMeansSpec(a, b);
    LexLeMeansSpec(b, a);
    LexLeTotal(a, b);
    if LexLe(a, b) && LexLe(b, a) {
      LexLeAntisymmetric(a, b);
    }
  }

  lemma {:induction false} LexLeReflexive(a: string)
    ensures LexLe(a, a)
  {
    if |a| > 0 {
      LexLeReflexive(a[1..]);
    }
  }

  lemma {:induction false} LexLeTotal(a: string, b: string)
    ensures LexLe(a, b) || LexLe(b, a)
  {
    if |a| > 0 && |b| > 0 && a[0] == b[0] {
      LexLeTotal(a[1..], b[1..]);
    }
  }

  lemma {:induction false} LexLeAntisymmetric(a: string, b: string)
    requires LexLe(a, b) && LexLe(b, a)
    ensures a == b
  {
    if |a| > 0 && |b| > 0 {
      LexLeAntisymmetric(a[1..], b[1..]);
      assert a == [a[0]] + a[1..] && b == [b[0]] + b[1..];
    }
  }

  lemma {:induction false} LexLeTransitive(a: string, b: string, c: string)
    requires LexLe(a, b) && LexLe(b, c)
    ensures LexLe(a, c)
  {
    if |a| > 0 && |b| > 0 && |c| > 0 && a[0] == b[0] && b[0] == c[0] {
      LexLeTransitive(a[1..], b[1..], c[1..]);
    }
  }
}
