// Node identifiers and their byte-wise order, as Go compares strings.
module NodeOrder {

  type NodeId = string

  predicate Less(a: NodeId, b: NodeId) {
    if b == [] then false
    else if a == [] then true
    else a[0] < b[0] || (a[0] == b[0] && Less(a[1..], b[1..]))
  }

  lemma {:induction false} LessTotal(a: NodeId, b: NodeId)
    ensures !Less(a, a)
    ensures a == b || Less(a, b) || Less(b, a)
    ensures !(Less(a, b) && Less(b, a))
  {
    if a != [] && b != [] {
      LessTotal(a[1..], b[1..]);
      assert a == [a[0]] + a[1..] && b == [b[0]] + b[1..];
    } else if a != [] {
      LessTotal(a[1..], a[1..]);
    }
  }

  lemma {:induction false} LessTransitive(a: NodeId, b: NodeId, c: NodeId)
    requires Less(a, b) && Less(b, c)
    ensures Less(a, c)
  {
    if a != [] && a[0] == b[0] && b[0] == c[0] {
      LessTransitive(a[1..], b[1..], c[1..]);
    }
  }

  // a and b are the same up to k, and there a ends or has the smaller character.
  ghost predicate LessAt(a: NodeId, b: NodeId, k: nat) {
    k <= |a| && k < |b| && a[..k] == b[..k] && (k == |a| || a[k] < b[k])
  }

  // The order of the dictionary.
  lemma {:induction false} LessExactly(a: NodeId, b: NodeId)
    ensures Less(a, b) <==> exists k: nat :: LessAt(a, b, k)
  {
    if b == [] {
    } else if a == [] || a[0] < b[0] {
      assert LessAt(a, b, 0);
    } else {
      LessExactly(a[1..], b[1..]);
      if Less(a, b) {
        var k: nat :| LessAt(a[1..], b[1..], k);
        assert a[..k + 1] == [a[0]] + a[1..][..k] && b[..k + 1] == [b[0]] + b[1..][..k];
        assert LessAt(a, b, k + 1);
      }
      if k: nat :| LessAt(a, b, k) {
        assert k > 0 && a[0] == a[..k][0] && b[0] == b[..k][0];
        assert a[1..][..k - 1] == a[..k][1..] && b[1..][..k - 1] == b[..k][1..];
        assert LessAt(a[1..], b[1..], k - 1);
      }
    }
  }
}
