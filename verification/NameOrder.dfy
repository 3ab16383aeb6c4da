/** The order in which `sorted` lists node ids: by code points, a prefix before what extends it. */
module NameOrder {
  import opened Common
  import opened DagGraph

  predicate Less(a: string, b: string) {
    b != "" && (a == "" || a[0] < b[0] || (a[0] == b[0] && Less(a[1..], b[1..])))
  }

  /** The first place where they differ decides, and a prefix comes before what extends it. */
  lemma {:induction false} LessIff(a: string, b: string)
    ensures Less(a, b) <==> exists k: nat :: IsFirstDifference(a, b, k) && (k == |a| || a[k] < b[k])
  {
    if a != "" && b != "" && a[0] == b[0] {
      LessIff(a[1..], b[1..]);
      forall k: nat ensures IsFirstDifference(a[1..], b[1..], k) <==> IsFirstDifference(a, b, k + 1) {
        DifferenceLater(a, b, k);
      }
      if k: nat :| IsFirstDifference(a, b, k) && (k == |a| || a[k] < b[k]) {
        assert IsFirstDifference(a[1..], b[1..], k - 1);
      }
      if k: nat :| IsFirstDifference(a[1..], b[1..], k) && (k == |a[1..]| || a[1..][k] < b[1..][k]) {
        assert IsFirstDifference(a, b, k + 1);
      }
    } else if Less(a, b) {
      assert IsFirstDifference(a, b, 0);
    }
  }

  predicate IsFirstDifference(a: string, b: string, k: nat) {
    k <= |a| && k < |b| && a[..k] == b[..k] && (k == |a| || a[k] != b[k])
  }

  lemma DifferenceLater(a: string, b: string, k: nat)
    requires a != "" && b != "" && a[0] == b[0]
    ensures IsFirstDifference(a[1..], b[1..], k) <==> IsFirstDifference(a, b, k + 1)
  {
    if k < |a| && k + 1 < |b| {
      assert a[..k + 1] == [a[0]] + a[1..][..k] && b[..k + 1] == [b[0]] + b[1..][..k];
      assert a[..k + 1] == b[..k + 1] ==> a[1..][..k] == a[..k + 1][1..] == b[..k + 1][1..] == b[1..][..k];
    }
  }

  lemma {:induction false} LessTotal(a: string, b: string)
    ensures Less(a, b) || Less(b, a) || a == b
  {
    if a != "" && b != "" && a[0] == b[0] {
      LessTotal(a[1..], b[1..]);
      assert a == [a[0]] + a[1..] && b == [b[0]] + b[1..];
    }
  }

  lemma {:induction false} LessTransitive(a: string, b: string, c: string)
    requires Less(a, b) && Less(b, c)
    ensures Less(a, c)
  {
    if a != "" && a[0] == b[0] == c[0] { LessTransitive(a[1..], b[1..], c[1..]); }
  }

  ghost predicate Sorted(ids: seq<NodeId>) {
    forall i, j :: 0 <= i < j < |ids| ==> Less(ids[i].name, ids[j].name)
  }

  lemma LessApart(a: string, b: string)
    requires Less(a, b)
    ensures a != b && !Less(b, a)
  {
    LessIrreflexive(a);
    if Less(b, a) { LessTransitive(a, b, a); }
  }

  lemma {:induction false} LessIrreflexive(a: string)
    ensures !Less(a, a)
  {
    if a != "" { LessIrreflexive(a[1..]); }
  }

  /** A set has only one sorted list. */
  lemma {:induction false} OneSorted(p: seq<NodeId>, q: seq<NodeId>)
    requires Sorted(p) && Sorted(q) && Elements(p) == Elements(q)
    ensures p == q
    decreases |p|
  {
    if p != [] || q != [] {
      SameFirst(p, q);
      RestElements(p);
      RestElements(q);
      OneSorted(p[1..], q[1..]);
    }
  }

  lemma SameFirst(p: seq<NodeId>, q: seq<NodeId>)
    requires Sorted(p) && Sorted(q) && Elements(p) == Elements(q) && (p != [] || q != [])
    ensures p != [] && q != [] && p[0] == q[0]
  {
    assert p != [] ==> p[0] in Elements(p);
    assert q != [] ==> q[0] in Elements(q);
    var i :| 0 <= i < |q| && q[i] == p[0];
    var j :| 0 <= j < |p| && p[j] == q[0];
    if i > 0 {
      LessApart(q[0].name, q[i].name);
    }
  }

  lemma RestElements(p: seq<NodeId>)
    requires Sorted(p) && p != []
    ensures Sorted(p[1..]) && Elements(p[1..]) == Elements(p) - {p[0]}
  {
    forall i | 1 <= i < |p| ensures p[i] != p[0] && p[i] in p[1..] {
      LessApart(p[0].name, p[i].name);
      assert p[1..][i - 1] == p[i];
    }
  }

  /** `sorted` of a set of ids. */
  method SortIds(ids: set<NodeId>) returns (r: seq<NodeId>)
    ensures Sorted(r) && Elements(r) == ids
    ensures forall i, j :: 0 <= i < j < |r| ==> Less(r[i].name, r[j].name)
  {
    r := [];
    var todo := ids;
    while todo != {}
      invariant todo <= ids && Sorted(r) && Elements(r) == ids - todo
      decreases todo
    {
      var id :| id in todo;
      r := Insert(r, id);
      todo := todo - {id};
    }
  }

  method Insert(ids: seq<NodeId>, id: NodeId) returns (r: seq<NodeId>)
    requires Sorted(ids) && id !in ids
    ensures Sorted(r) && Elements(r) == Elements(ids) + {id}
  {
    var k := |ids|;
    while k > 0 && Less(id.name, ids[k - 1].name)
      invariant 0 <= k <= |ids|
      invariant forall j :: k <= j < |ids| ==> Less(id.name, ids[j].name)
    {
      k := k - 1;
    }
    InsertSorted(ids, id, k);
    r := ids[..k] + [id] + ids[k..];
  }

  lemma InsertSorted(ids: seq<NodeId>, id: NodeId, k: nat)
    requires Sorted(ids) && id !in ids && k <= |ids| && (k > 0 ==> !Less(id.name, ids[k - 1].name))
    requires forall j :: k <= j < |ids| ==> Less(id.name, ids[j].name)
    ensures var r := ids[..k] + [id] + ids[k..]; Sorted(r) && Elements(r) == Elements(ids) + {id}
  {
    forall j | 0 <= j < k ensures Less(ids[j].name, id.name) {
      LessTotal(ids[k - 1].name, id.name);
      assert ids[k - 1] in ids;
      if j < k - 1 { LessTransitive(ids[j].name, ids[k - 1].name, id.name); }
    }
    assert ids == ids[..k] + ids[k..];
  }
}
